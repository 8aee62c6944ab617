/**
 * `src/lib/address-book.ts`: the CSV import that merges into the stored book in place, and the other
 * operations on it.
 */
module AddressBook {
  import opened Text
  import opened Stellar
  import Csv

  datatype Entry = Entry(publicKey: string, labelText: string, memo: Option<string>, lastUsed: Option<int>)

  const LABEL_MAX_LENGTH := 100
  const CONTACT_MEMO_MAX_LENGTH := 28

  /** `s.length`, which counts a character beyond the basic plane twice. */
  function Length(s: string): nat {
    if s == "" then 0 else (if s[0] as int > 0xFFFF then 2 else 1) + Length(s[1..])
  }

  predicate DistinctKeys(book: seq<Entry>) {
    forall i, j :: 0 <= i < j < |book| ==> book[i].publicKey != book[j].publicKey
  }

  function Keys(book: seq<Entry>): set<string> { set e | e in book :: e.publicKey }

  /** `findIndex` by public key: the first match, or the length. */
  function FindKey(book: seq<Entry>, key: string): (i: nat)
    ensures i <= |book| && (i < |book| ==> book[i].publicKey == key)
    ensures forall j :: 0 <= j < i ==> book[j].publicKey != key
    ensures i < |book| <==> key in Keys(book)
  {
    if book == [] then 0
    else if book[0].publicKey == key then 0
    else
      assert book == [book[0]] + book[1..];
      1 + FindKey(book[1..], key)
  }

  // ---------------------------------------------------------------- one row of the file

  datatype Problem =
    | NoContacts | NoColumns
    | ExtraColumns | LabelMissing | LabelTooLong | AddressMissing | AddressInvalid | MemoTooLong | DuplicateInFile

  datatype Rejection = Rejection(row: nat, problems: seq<Problem>)

  /** Positions in the header; none for the memo when it is the number of headers. */
  datatype Columns = Columns(count: nat, labelAt: nat, addressAt: nat, memoAt: nat)

  datatype Contact = Contact(publicKey: string, labelText: string, memo: string)

  function Cell(cells: Csv.Row, i: nat): string { if i < |cells| then Trim(cells[i]) else "" }

  function ReadContact(cells: Csv.Row, c: Columns): Contact {
    Contact(Cell(cells, c.addressAt), Cell(cells, c.labelAt), if c.memoAt < c.count then Cell(cells, c.memoAt) else "")
  }

  function LabelProblems(text: string): seq<Problem> {
    if text == "" then [LabelMissing] else if Length(text) > LABEL_MAX_LENGTH then [LabelTooLong] else []
  }

  function AddressProblems(key: string): seq<Problem> {
    if key == "" then [AddressMissing] else if !IsStellarAddress(key) then [AddressInvalid] else []
  }

  function Problems(cells: Csv.Row, c: Columns, seen: set<string>): seq<Problem> {
    var contact := ReadContact(cells, c);
    (if |cells| > c.count then [ExtraColumns] else [])
    + LabelProblems(contact.labelText)
    + AddressProblems(contact.publicKey)
    + (if Length(contact.memo) > CONTACT_MEMO_MAX_LENGTH then [MemoTooLong] else [])
    + (if contact.publicKey != "" && contact.publicKey in seen then [DuplicateInFile] else [])
  }

  // ---------------------------------------------------------------- what an import means

  /** A row acceptable by itself. */
  predicate RowOk(cells: Csv.Row, c: Columns) {
    var contact := ReadContact(cells, c);
    && |cells| <= c.count
    && 1 <= Length(contact.labelText) <= 100
    && contact.publicKey != "" && IsStellarAddress(contact.publicKey)
    && Length(contact.memo) <= 28
  }

  lemma ProblemFreeIff(cells: Csv.Row, c: Columns, seen: set<string>)
    ensures Problems(cells, c, seen) == [] <==>
            RowOk(cells, c) && ReadContact(cells, c).publicKey !in seen
  {}

  /** When a problem is reported. */
  predicate HasProblem(x: Problem, cells: Csv.Row, contact: Contact, count: nat, seen: set<string>) {
    match x
    case ExtraColumns => |cells| > count
    case LabelMissing => contact.labelText == ""
    case LabelTooLong => Length(contact.labelText) > 100
    case AddressMissing => contact.publicKey == ""
    case AddressInvalid => contact.publicKey != "" && !IsStellarAddress(contact.publicKey)
    case MemoTooLong => Length(contact.memo) > 28
    case DuplicateInFile => contact.publicKey != "" && contact.publicKey in seen
    case _ => false
  }

  lemma ProblemsMean(cells: Csv.Row, c: Columns, seen: set<string>, x: Problem)
    ensures x in Problems(cells, c, seen) <==> HasProblem(x, cells, ReadContact(cells, c), c.count, seen)
  {
    var contact := ReadContact(cells, c);
    FiveParts(
      if |cells| > c.count then [ExtraColumns] else [], LabelProblems(contact.labelText),
      AddressProblems(contact.publicKey), if Length(contact.memo) > 28 then [MemoTooLong] else [],
      if contact.publicKey != "" && contact.publicKey in seen then [DuplicateInFile] else [], x);
  }

  lemma FiveParts(a: seq<Problem>, b: seq<Problem>, c: seq<Problem>, d: seq<Problem>, e: seq<Problem>, x: Problem)
    ensures x in a + b + c + d + e <==> x in a || x in b || x in c || x in d || x in e
  {}

  /** The length of a text: one for each of its characters, and one more for each beyond the basic plane. */
  lemma {:induction false} LengthIs(s: string, t: string)
    ensures Length(s + t) == Length(s) + Length(t)
    ensures |s| == 1 ==> Length(s) == if s[0] <= '\U{FFFF}' then 1 else 2
  {
    if s == "" {
      assert s + t == t;
    } else {
      assert (s + t)[1..] == s[1..] + t;
      LengthIs(s[1..], t);
    }
  }

  /** The contacts of the acceptable rows, the first one of each address; the book plays no part. */
  function Accepted(rows: seq<Csv.Row>, c: Columns, seen: set<string>): seq<Contact> {
    if rows == [] then []
    else
      var contact := ReadContact(rows[0], c);
      if RowOk(rows[0], c) && contact.publicKey !in seen
      then [contact] + Accepted(rows[1..], c, seen + {contact.publicKey})
      else Accepted(rows[1..], c, seen)
  }

  predicate DistinctContacts(contacts: seq<Contact>) {
    forall i, j :: 0 <= i < j < |contacts| ==> contacts[i].publicKey != contacts[j].publicKey
  }

  lemma {:induction false} AcceptedDistinct(rows: seq<Csv.Row>, c: Columns, seen: set<string>)
    ensures DistinctContacts(Accepted(rows, c, seen))
    ensures forall i :: 0 <= i < |Accepted(rows, c, seen)| ==> Accepted(rows, c, seen)[i].publicKey !in seen
  {
    if rows != [] {
      var contact := ReadContact(rows[0], c);
      if RowOk(rows[0], c) && contact.publicKey !in seen {
        AcceptedDistinct(rows[1..], c, seen + {contact.publicKey});
        var rest := Accepted(rows[1..], c, seen + {contact.publicKey});
        assert forall i :: 0 <= i < |rest| ==> rest[i].publicKey !in seen + {contact.publicKey};
      } else {
        AcceptedDistinct(rows[1..], c, seen);
      }
    }
  }

  /** A saved entry after one contact: the label is replaced, the memo too unless the new one is empty. */
  function UpdatedBy(e: Entry, contact: Contact): Entry {
    if e.publicKey != contact.publicKey then e
    else e.(labelText := contact.labelText, memo := if contact.memo != "" then Some(contact.memo) else e.memo)
  }

  function NewEntry(contact: Contact): Entry {
    Entry(contact.publicKey, contact.labelText, if contact.memo != "" then Some(contact.memo) else None, None)
  }

  function UpdatedByAll(e: Entry, contacts: seq<Contact>): Entry
    decreases |contacts|
  {
    if contacts == [] then e else UpdatedByAll(UpdatedBy(e, contacts[0]), contacts[1..])
  }

  /** The contacts not in the book, in the order of the file. */
  function NewContacts(keys: set<string>, contacts: seq<Contact>): seq<Contact> {
    if contacts == [] then []
    else (if contacts[0].publicKey in keys then [] else [contacts[0]]) + NewContacts(keys, contacts[1..])
  }

  /** The old entries in place, each updated; then the new ones. */
  ghost predicate IsMerge(merged: seq<Entry>, book: seq<Entry>, contacts: seq<Contact>) {
    var added := NewContacts(Keys(book), contacts);
    && |merged| == |book| + |added|
    && (forall i :: 0 <= i < |book| ==> merged[i] == UpdatedByAll(book[i], contacts))
    && forall i :: 0 <= i < |added| ==> merged[|book| + i] == NewEntry(added[i])
  }

  // ---------------------------------------------------------------- what the loop does

  datatype Progress = Progress(book: seq<Entry>, seen: set<string>, added: nat, updated: nat, rejected: seq<Rejection>)

  function MergeOne(book: seq<Entry>, contact: Contact): seq<Entry> {
    var i := FindKey(book, contact.publicKey);
    if i < |book| then book[i := UpdatedBy(book[i], contact)] else book + [NewEntry(contact)]
  }

  function MergeAll(book: seq<Entry>, contacts: seq<Contact>): seq<Entry>
    decreases |contacts|
  {
    if contacts == [] then book else MergeAll(MergeOne(book, contacts[0]), contacts[1..])
  }

  function ImportRow(p: Progress, cells: Csv.Row, row: nat, c: Columns): Progress {
    var problems := Problems(cells, c, p.seen);
    if problems != [] then p.(rejected := p.rejected + [Rejection(row, problems)])
    else
      var contact := ReadContact(cells, c);
      var known := FindKey(p.book, contact.publicKey) < |p.book|;
      Progress(MergeOne(p.book, contact), p.seen + {contact.publicKey},
               if known then p.added else p.added + 1, if known then p.updated + 1 else p.updated, p.rejected)
  }

  function ImportRows(p: Progress, rows: seq<Csv.Row>, row: nat, c: Columns): Progress
    decreases |rows|
  {
    if rows == [] then p else ImportRows(ImportRow(p, rows[0], row, c), rows[1..], row + 1, c)
  }

  // ---------------------------------------------------------------- the loop does what an import means

  lemma MergeOneFacts(book: seq<Entry>, contact: Contact)
    requires DistinctKeys(book)
    ensures var b := MergeOne(book, contact);
            && DistinctKeys(b)
            && Keys(b) == Keys(book) + {contact.publicKey}
            && |b| == |book| + (if contact.publicKey in Keys(book) then 0 else 1)
            && (forall i :: 0 <= i < |book| ==> b[i] == UpdatedBy(book[i], contact))
            && (contact.publicKey !in Keys(book) ==> b[|book|] == NewEntry(contact))
  {
    var b, k := MergeOne(book, contact), FindKey(book, contact.publicKey);
    forall i | 0 <= i < |book| ensures b[i] == UpdatedBy(book[i], contact) {
      assert book[i].publicKey in Keys(book);
    }
    assert forall i :: 0 <= i < |book| ==> b[i].publicKey == book[i].publicKey;
    MergedKeys(book, b, contact.publicKey, k);
  }

  lemma MergedKeys(book: seq<Entry>, b: seq<Entry>, key: string, k: nat)
    requires |book| <= |b| <= |book| + 1 && k < |b| && b[k].publicKey == key
    requires forall i :: 0 <= i < |book| ==> b[i].publicKey == book[i].publicKey
    requires |b| > |book| ==> k == |book|
    ensures Keys(b) == Keys(book) + {key}
  {}

  predicate Avoids(contacts: seq<Contact>, key: string) {
    forall i :: 0 <= i < |contacts| ==> contacts[i].publicKey != key
  }

  lemma {:induction false} UntouchedBy(e: Entry, contacts: seq<Contact>)
    requires Avoids(contacts, e.publicKey)
    ensures UpdatedByAll(e, contacts) == e
  {
    if contacts != [] { UntouchedBy(e, contacts[1..]); }
  }

  lemma {:induction false} NewContactsWithout(keys: set<string>, key: string, contacts: seq<Contact>)
    requires Avoids(contacts, key)
    ensures NewContacts(keys + {key}, contacts) == NewContacts(keys, contacts)
  {
    if contacts != [] { NewContactsWithout(keys, key, contacts[1..]); }
  }

  lemma {:induction false} MergeAllDistinct(book: seq<Entry>, contacts: seq<Contact>)
    requires DistinctKeys(book)
    ensures DistinctKeys(MergeAll(book, contacts))
    decreases |contacts|
  {
    if contacts != [] {
      MergeOneFacts(book, contacts[0]);
      MergeAllDistinct(MergeOne(book, contacts[0]), contacts[1..]);
    }
  }

  lemma MergeOneDistinct(book: seq<Entry>, contact: Contact)
    requires DistinctKeys(book)
    ensures DistinctKeys(MergeOne(book, contact))
  {}

  lemma DistinctTail(contacts: seq<Contact>)
    requires DistinctContacts(contacts) && contacts != []
    ensures DistinctContacts(contacts[1..]) && Avoids(contacts[1..], contacts[0].publicKey)
  {}

  lemma {:induction false} MergeAllIsMerge(book: seq<Entry>, contacts: seq<Contact>)
    requires DistinctKeys(book) && DistinctContacts(contacts)
    ensures IsMerge(MergeAll(book, contacts), book, contacts)
    decreases |contacts|
  {
    if contacts != [] {
      var a, rest := contacts[0], contacts[1..];
      var b := MergeOne(book, a);
      MergeOneDistinct(book, a);
      DistinctTail(contacts);
      MergeAllIsMerge(b, rest);
      MergeFirst(book, a, rest, MergeAll(b, rest));
      assert contacts == [a] + rest;
    }
  }

  lemma MergeFirst(book: seq<Entry>, a: Contact, rest: seq<Contact>, merged: seq<Entry>)
    requires DistinctKeys(book) && Avoids(rest, a.publicKey) && IsMerge(merged, MergeOne(book, a), rest)
    ensures IsMerge(merged, book, [a] + rest)
  {
    if a.publicKey in Keys(book) {
      KnownFirst(book, a, rest, merged);
    } else {
      NewFirst(book, a, rest, merged);
    }
  }

  lemma UpdatedCons(e: Entry, a: Contact, rest: seq<Contact>)
    ensures UpdatedByAll(e, [a] + rest) == UpdatedByAll(UpdatedBy(e, a), rest)
  {
    assert ([a] + rest)[1..] == rest;
  }

  lemma NewContactsKnown(keys: set<string>, a: Contact, rest: seq<Contact>)
    requires a.publicKey in keys
    ensures NewContacts(keys, [a] + rest) == NewContacts(keys, rest)
  {
    assert ([a] + rest)[1..] == rest;
  }

  lemma KnownFirst(book: seq<Entry>, a: Contact, rest: seq<Contact>, merged: seq<Entry>)
    requires DistinctKeys(book) && a.publicKey in Keys(book) && IsMerge(merged, MergeOne(book, a), rest)
    ensures IsMerge(merged, book, [a] + rest)
  {
    var b := MergeOne(book, a);
    MergeOneFacts(book, a);
    assert Keys(b) == Keys(book);
    NewContactsKnown(Keys(book), a, rest);
    forall i | 0 <= i < |book| ensures UpdatedByAll(book[i], [a] + rest) == UpdatedByAll(b[i], rest) {
      UpdatedCons(book[i], a, rest);
    }
  }

  lemma NewFirst(book: seq<Entry>, a: Contact, rest: seq<Contact>, merged: seq<Entry>)
    requires DistinctKeys(book) && a.publicKey !in Keys(book) && Avoids(rest, a.publicKey)
    requires IsMerge(merged, MergeOne(book, a), rest)
    ensures IsMerge(merged, book, [a] + rest)
  {
    var b, later := MergeOne(book, a), NewContacts(Keys(book), rest);
    MergeOneFacts(book, a);
    NewContactsWithout(Keys(book), a.publicKey, rest);
    UntouchedBy(NewEntry(a), rest);
    assert ([a] + rest)[1..] == rest;
    assert NewContacts(Keys(book), [a] + rest) == [a] + later;
    forall i | 0 <= i < |book| ensures merged[i] == UpdatedByAll(book[i], [a] + rest) {
      assert merged[i] == UpdatedByAll(b[i], rest);
    }
    forall i | 0 <= i < 1 + |later| ensures merged[|book| + i] == NewEntry(([a] + later)[i]) {
      if i == 0 {
        assert merged[|book|] == UpdatedByAll(b[|book|], rest);
      } else {
        assert merged[|b| + (i - 1)] == NewEntry(later[i - 1]);
      }
    }
  }

  /** The loop, against the meaning: the book, the counts, and one rejection for every other row. */
  lemma {:induction false} ImportRowsMeaning(p: Progress, rows: seq<Csv.Row>, row: nat, c: Columns)
    requires DistinctKeys(p.book)
    ensures var q, accepted := ImportRows(p, rows, row, c), Accepted(rows, c, p.seen);
            && q.book == MergeAll(p.book, accepted)
            && q.added + q.updated == p.added + p.updated + |accepted|
            && |q.book| - q.added == |p.book| - p.added
            && |q.rejected| == |p.rejected| + |rows| - |accepted|
    decreases |rows|
  {
    if rows != [] {
      var q := ImportRow(p, rows[0], row, c);
      var contact := ReadContact(rows[0], c);
      ProblemFreeIff(rows[0], c, p.seen);
      MergeOneFacts(p.book, contact);
      ImportRowsMeaning(q, rows[1..], row + 1, c);
      if Problems(rows[0], c, p.seen) == [] {
        var rest := Accepted(rows[1..], c, q.seen);
        assert ([contact] + rest)[1..] == rest;
      }
    }
  }

  /** Why the book need not be written back when both counts are zero. */
  lemma {:induction false} NothingCountedNothingDone(p: Progress, rows: seq<Csv.Row>, row: nat, c: Columns)
    ensures var q := ImportRows(p, rows, row, c);
            && q.added >= p.added && q.updated >= p.updated
            && (q.added == p.added && q.updated == p.updated ==> q.book == p.book)
    decreases |rows|
  {
    if rows != [] { NothingCountedNothingDone(ImportRow(p, rows[0], row, c), rows[1..], row + 1, c); }
  }

  // ---------------------------------------------------------------- importing twice

  lemma {:induction false} UpdatedTwice(e: Entry, contacts: seq<Contact>)
    requires DistinctContacts(contacts)
    ensures UpdatedByAll(UpdatedByAll(e, contacts), contacts) == UpdatedByAll(e, contacts)
    ensures UpdatedByAll(e, contacts).publicKey == e.publicKey
  {
    if contacts != [] {
      var a, rest := contacts[0], contacts[1..];
      if e.publicKey == a.publicKey {
        assert Avoids(rest, a.publicKey);
        UntouchedBy(UpdatedBy(e, a), rest);
      } else {
        UpdatedTwice(e, rest);
      }
    }
  }

  lemma {:induction false} NewEntryUntouched(contacts: seq<Contact>, i: nat)
    requires DistinctContacts(contacts) && i < |contacts|
    ensures UpdatedByAll(NewEntry(contacts[i]), contacts) == NewEntry(contacts[i])
  {
    var a, rest := contacts[0], contacts[1..];
    if i == 0 {
      assert Avoids(rest, a.publicKey);
      UntouchedBy(NewEntry(a), rest);
    } else {
      NewEntryUntouched(rest, i - 1);
    }
  }

  lemma {:induction false} NewContactsIn(keys: set<string>, contacts: seq<Contact>)
    ensures forall a :: a in NewContacts(keys, contacts) <==> a in contacts && a.publicKey !in keys
  {
    if contacts != [] {
      NewContactsIn(keys, contacts[1..]);
      assert contacts == [contacts[0]] + contacts[1..];
    }
  }

  lemma MergedHasAll(merged: seq<Entry>, book: seq<Entry>, contacts: seq<Contact>)
    requires IsMerge(merged, book, contacts) && DistinctContacts(contacts)
    ensures forall a :: a in contacts ==> a.publicKey in Keys(merged)
  {
    var added := NewContacts(Keys(book), contacts);
    forall a | a in contacts ensures a.publicKey in Keys(merged) {
      NewContactsIn(Keys(book), contacts);
      if a.publicKey in Keys(book) {
        var k := FindKey(book, a.publicKey);
        UpdatedTwice(book[k], contacts);
        assert merged[k] in merged;
      } else {
        var k :| 0 <= k < |added| && added[k] == a;
        assert merged[|book| + k] in merged;
      }
    }
  }

  lemma NothingNew(keys: set<string>, contacts: seq<Contact>)
    requires forall a :: a in contacts ==> a.publicKey in keys
    ensures NewContacts(keys, contacts) == []
  {}

  /** Merging the same contacts once more changes nothing. */
  lemma MergeIdempotent(book: seq<Entry>, contacts: seq<Contact>)
    requires DistinctKeys(book) && DistinctContacts(contacts)
    ensures var merged := MergeAll(book, contacts); MergeAll(merged, contacts) == merged
  {
    var merged := MergeAll(book, contacts);
    var added := NewContacts(Keys(book), contacts);
    MergeAllIsMerge(book, contacts);
    MergeAllDistinct(book, contacts);
    MergeAllIsMerge(merged, contacts);
    MergedHasAll(merged, book, contacts);
    NothingNew(Keys(merged), contacts);
    forall i | 0 <= i < |merged| ensures UpdatedByAll(merged[i], contacts) == merged[i] {
      if i < |book| {
        UpdatedTwice(book[i], contacts);
      } else {
        NewContactsIn(Keys(book), contacts);
        assert added[i - |book|] in contacts;
        var k :| 0 <= k < |contacts| && contacts[k] == added[i - |book|];
        NewEntryUntouched(contacts, k);
        assert merged[|book| + (i - |book|)] == NewEntry(added[i - |book|]);
      }
    }
    assert MergeAll(merged, contacts) == merged;
  }

  // ---------------------------------------------------------------- the rejected rows

  /** The address of a row that is acceptable by itself. */
  function Claimed(cells: Csv.Row, c: Columns): Option<string> {
    if RowOk(cells, c) then Some(ReadContact(cells, c).publicKey) else None
  }

  /** The row is acceptable and no acceptable row before it has its address. */
  predicate FirstOk(rows: seq<Csv.Row>, i: nat, c: Columns, seen: set<string>)
    requires i < |rows|
  {
    var claimed := Claimed(rows[i], c);
    claimed.Some? && claimed.value !in seen && forall j :: 0 <= j < i ==> Claimed(rows[j], c) != claimed
  }

  predicate HasRejection(rejected: seq<Rejection>, row: nat) {
    exists k :: 0 <= k < |rejected| && rejected[k].row == row
  }

  lemma RejectionAppended(rejected: seq<Rejection>, r: Rejection, row: nat)
    ensures HasRejection(rejected + [r], row) <==> HasRejection(rejected, row) || r.row == row
  {
    var all := rejected + [r];
    assert all[|rejected|] == r;
    if k :| 0 <= k < |rejected| && rejected[k].row == row { assert all[k].row == row; }
  }

  function SeenAfter(cells: Csv.Row, c: Columns, seen: set<string>): set<string> {
    if Claimed(cells, c).Some? then seen + {Claimed(cells, c).value} else seen
  }

  lemma FirstOkCons(rows: seq<Csv.Row>, i: nat, c: Columns, seen: set<string>)
    requires 0 < i < |rows|
    ensures FirstOk(rows, i, c, seen) <==> FirstOk(rows[1..], i - 1, c, SeenAfter(rows[0], c, seen))
  {
    assert rows[1..][i - 1] == rows[i];
    forall j | 1 <= j < i ensures Claimed(rows[j], c) == Claimed(rows[1..][j - 1], c) {}
  }

  lemma RejectedStep(p: Progress, rows: seq<Csv.Row>, row: nat, c: Columns, n: nat)
    requires rows != []
    ensures var q := ImportRow(p, rows[0], row, c);
            && (HasRejection(q.rejected, n) <==>
                  HasRejection(p.rejected, n) || (n == row && !FirstOk(rows, 0, c, p.seen)))
            && q.seen == SeenAfter(rows[0], c, p.seen)
  {
    ProblemFreeIff(rows[0], c, p.seen);
    var key := ReadContact(rows[0], c).publicKey;
    if Problems(rows[0], c, p.seen) != [] {
      RejectionAppended(p.rejected, Rejection(row, Problems(rows[0], c, p.seen)), n);
      assert key in p.seen ==> p.seen + {key} == p.seen;
    }
  }

  /** Line `n` holds a row that is not the first acceptable one of its address. */
  predicate IsReported(rows: seq<Csv.Row>, row: nat, c: Columns, seen: set<string>, n: nat) {
    row <= n < row + |rows| && !FirstOk(rows, n - row, c, seen)
  }

  lemma IsReportedCons(rows: seq<Csv.Row>, row: nat, c: Columns, seen: set<string>, n: nat)
    requires rows != []
    ensures IsReported(rows, row, c, seen, n) <==>
            || (n == row && !FirstOk(rows, 0, c, seen))
            || IsReported(rows[1..], row + 1, c, SeenAfter(rows[0], c, seen), n)
  {
    if row < n < row + |rows| {
      FirstOkCons(rows, n - row, c, seen);
      assert n - row - 1 == n - (row + 1) && n < row + 1 + |rows[1..]|;
    } else if n == row {
      assert !IsReported(rows[1..], row + 1, c, SeenAfter(rows[0], c, seen), n);
    }
  }

  lemma RejectedNext(p: Progress, q: Progress, rejected: seq<Rejection>, rows: seq<Csv.Row>, row: nat, c: Columns,
                     n: nat)
    requires rows != [] && q == ImportRow(p, rows[0], row, c)
    requires HasRejection(rejected, n) <==> HasRejection(q.rejected, n) || IsReported(rows[1..], row + 1, c, q.seen, n)
    ensures HasRejection(rejected, n) <==> HasRejection(p.rejected, n) || IsReported(rows, row, c, p.seen, n)
  {
    RejectedStep(p, rows, row, c, n);
    IsReportedCons(rows, row, c, p.seen, n);
  }

  /** Exactly those lines are reported. */
  lemma {:induction false} RejectedIff(p: Progress, rows: seq<Csv.Row>, row: nat, c: Columns, n: nat)
    ensures HasRejection(ImportRows(p, rows, row, c).rejected, n) <==>
            HasRejection(p.rejected, n) || IsReported(rows, row, c, p.seen, n)
    decreases |rows|
  {
    if rows != [] {
      var q := ImportRow(p, rows[0], row, c);
      RejectedIff(q, rows[1..], row + 1, c, n);
      RejectedNext(p, q, ImportRows(p, rows, row, c).rejected, rows, row, c, n);
    }
  }

  /** What is reported does not depend on the book. */
  lemma {:induction false} RejectedSame(p: Progress, q: Progress, rows: seq<Csv.Row>, row: nat, c: Columns)
    requires p.seen == q.seen && p.rejected == q.rejected
    ensures ImportRows(p, rows, row, c).rejected == ImportRows(q, rows, row, c).rejected
    decreases |rows|
  {
    if rows != [] { RejectedSame(ImportRow(p, rows[0], row, c), ImportRow(q, rows[0], row, c), rows[1..], row + 1, c); }
  }

  // ---------------------------------------------------------------- a whole file

  /** `toLowerCase`, as far as it can produce one of the letters of the header names. */
  function LowerChar(ch: char): char {
    if 'A' <= ch <= 'Z' then (ch as int + 32) as char
    else if ch == '\U{212A}' then 'k'
    else ch
  }

  function HeaderName(cell: string): string { Map(LowerChar, Trim(cell)) }

  /** The first header among the names, or the number of headers. */
  function FindHeader(headers: seq<string>, names: set<string>): (i: nat)
    ensures i <= |headers| && (i < |headers| ==> headers[i] in names)
    ensures forall j :: 0 <= j < i ==> headers[j] !in names
  {
    if headers == [] || headers[0] in names then 0
    else
      assert forall j :: 0 < j < |headers| ==> headers[j] == headers[1..][j - 1];
      1 + FindHeader(headers[1..], names)
  }

  function ReadColumns(header: Csv.Row): Columns {
    var headers := Map(HeaderName, header);
    Columns(|header|, FindHeader(headers, {"label"}), FindHeader(headers, {"address", "publickey"}),
            FindHeader(headers, {"memo"}))
  }

  /** In a header a small letter of a name may be written large. */
  lemma LettersOfEitherCase(ch: char, k: nat)
    requires k < 26
    ensures var (large, small) := (('A' as int + k) as char, ('a' as int + k) as char);
            LowerChar(ch) == small <==> ch == large || ch == small || (small == 'k' && ch == '\U{212A}')
  {}

  /** The `i`th column is the first that is headed by one of the names. */
  predicate FirstNamed(header: Csv.Row, names: set<string>, i: nat) {
    i < |header| && HeaderName(header[i]) in names && forall j :: 0 <= j < i ==> HeaderName(header[j]) !in names
  }

  function CellAt(cells: Csv.Row, i: nat): string { if i < |cells| then Trim(cells[i]) else "" }

  /** Label, address and memo are what stands, trimmed, under the first header of that name. */
  lemma ContactIsUnderHeaders(header: Csv.Row, cells: Csv.Row, i: nat, j: nat)
    requires FirstNamed(header, {"label"}, i) && FirstNamed(header, {"address", "publickey"}, j)
    ensures HasColumns(ReadColumns(header))
    ensures var contact := ReadContact(cells, ReadColumns(header));
            && contact.labelText == CellAt(cells, i) && contact.publicKey == CellAt(cells, j)
            && (forall k :: FirstNamed(header, {"memo"}, k) ==> contact.memo == CellAt(cells, k))
            && ((forall k :: 0 <= k < |header| ==> HeaderName(header[k]) != "memo") ==> contact.memo == "")
  {
    var headers := Map(HeaderName, header);
    assert forall k :: 0 <= k < |header| ==> headers[k] == HeaderName(header[k]);
    FirstHeaderIs(headers, {"label"}, i);
    FirstHeaderIs(headers, {"address", "publickey"}, j);
    forall k | FirstNamed(header, {"memo"}, k) ensures FindHeader(headers, {"memo"}) == k {
      FirstHeaderIs(headers, {"memo"}, k);
    }
  }

  lemma FirstHeaderIs(headers: seq<string>, names: set<string>, i: nat)
    requires i < |headers| && headers[i] in names && forall j :: 0 <= j < i ==> headers[j] !in names
    ensures FindHeader(headers, names) == i
  {}

  datatype Outcome = Outcome(book: seq<Entry>, added: nat, updated: nat, rejected: seq<Rejection>)

  predicate HasColumns(c: Columns) { c.labelAt < c.count && c.addressAt < c.count }

  function Imported(book: seq<Entry>, csvText: string): Outcome {
    var parsed := Csv.Parsed(csvText);
    if |parsed| < 2 then Outcome(book, 0, 0, [Rejection(1, [NoContacts])])
    else
      var c := ReadColumns(parsed[0]);
      if !HasColumns(c) then Outcome(book, 0, 0, [Rejection(1, [NoColumns])])
      else
        var p := ImportRows(Progress(book, {}, 0, 0, []), parsed[1..], 2, c);
        Outcome(p.book, p.added, p.updated, p.rejected)
  }

  /** A file that is imported row by row, not refused as a whole. */
  predicate HasRows(csvText: string) {
    var parsed := Csv.Parsed(csvText);
    |parsed| >= 2 && HasColumns(ReadColumns(parsed[0]))
  }

  /** No header has one of the names. */
  predicate NotNamed(header: Csv.Row, names: set<string>) {
    forall j :: 0 <= j < |header| ==> HeaderName(header[j]) !in names
  }

  /** When a file is refused as a whole, and with which message. */
  lemma RefusedAsAWhole(book: seq<Entry>, csvText: string)
    ensures var rows := Csv.Parsed(csvText);
            if |rows| < 2 then Imported(book, csvText) == Outcome(book, 0, 0, [Rejection(1, [NoContacts])])
            else if NotNamed(rows[0], {"label"}) || NotNamed(rows[0], {"address", "publickey"}) then
              Imported(book, csvText) == Outcome(book, 0, 0, [Rejection(1, [NoColumns])])
            else HasRows(csvText)
  {
    var rows := Csv.Parsed(csvText);
    if |rows| >= 2 {
      NamedIff(rows[0], {"label"});
      NamedIff(rows[0], {"address", "publickey"});
    }
  }

  lemma NamedIff(header: Csv.Row, names: set<string>)
    ensures FindHeader(Map(HeaderName, header), names) == |header| <==> NotNamed(header, names)
  {
    var headers := Map(HeaderName, header);
    assert forall k :: 0 <= k < |header| ==> headers[k] == HeaderName(header[k]);
  }

  lemma RejectionsOf(book: seq<Entry>, csvText: string)
    requires HasRows(csvText)
    ensures var parsed := Csv.Parsed(csvText);
            Imported(book, csvText).rejected ==
            ImportRows(Progress(book, {}, 0, 0, []), parsed[1..], 2, ReadColumns(parsed[0])).rejected
  {}

  /** The lines reported: the second line of the file is the first of its data rows. */
  lemma LinesReported(book: seq<Entry>, csvText: string, n: nat)
    requires HasRows(csvText)
    ensures var rows := Csv.Parsed(csvText)[1..];
            HasRejection(Imported(book, csvText).rejected, n) <==>
            2 <= n < 2 + |rows| && !FirstOk(rows, n - 2, ReadColumns(Csv.Parsed(csvText)[0]), {})
  {
    var parsed := Csv.Parsed(csvText);
    RejectionsOf(book, csvText);
    RejectedIff(Progress(book, {}, 0, 0, []), parsed[1..], 2, ReadColumns(parsed[0]), n);
  }

  function Contacts(csvText: string): seq<Contact>
    requires HasRows(csvText)
  {
    var parsed := Csv.Parsed(csvText);
    Accepted(parsed[1..], ReadColumns(parsed[0]), {})
  }

  /**
   * What an import does: the old entries stay in place, each updated by the one contact of its
   * address; the other contacts follow in the order of the file; every data row is counted once.
   */
  lemma ImportMeaning(book: seq<Entry>, csvText: string)
    requires DistinctKeys(book) && HasRows(csvText)
    ensures var o, contacts := Imported(book, csvText), Contacts(csvText);
            && DistinctKeys(o.book)
            && DistinctContacts(contacts)
            && IsMerge(o.book, book, contacts)
            && o.added == |NewContacts(Keys(book), contacts)|
            && o.added + o.updated == |contacts|
            && o.added + o.updated + |o.rejected| == |Csv.Parsed(csvText)| - 1
  {
    var parsed := Csv.Parsed(csvText);
    var c := ReadColumns(parsed[0]);
    ImportRowsMeaning(Progress(book, {}, 0, 0, []), parsed[1..], 2, c);
    AcceptedDistinct(parsed[1..], c, {});
    MergeAllIsMerge(book, Contacts(csvText));
    MergeAllDistinct(book, Contacts(csvText));
  }

  /** What a single entry keeps: its place, its address and last use, and its memo unless replaced. */
  lemma {:induction false} EntryAfterImport(e: Entry, contacts: seq<Contact>)
    requires DistinctContacts(contacts)
    ensures var u := UpdatedByAll(e, contacts);
            && u.publicKey == e.publicKey && u.lastUsed == e.lastUsed
            && (Avoids(contacts, e.publicKey) ==> u == e)
            && forall i :: 0 <= i < |contacts| && contacts[i].publicKey == e.publicKey ==>
                 u.labelText == contacts[i].labelText
                 && u.memo == if contacts[i].memo != "" then Some(contacts[i].memo) else e.memo
    decreases |contacts|
  {
    if contacts != [] {
      var a, rest := contacts[0], contacts[1..];
      if e.publicKey == a.publicKey {
        assert Avoids(rest, a.publicKey);
        UntouchedBy(UpdatedBy(e, a), rest);
      } else {
        EntryAfterImport(e, rest);
        assert forall i :: 1 <= i < |contacts| ==> contacts[i] == rest[i - 1];
      }
    }
  }

  /** Importing a file again leaves the book as it is and adds nothing. */
  lemma ImportTwice(book: seq<Entry>, csvText: string)
    requires DistinctKeys(book)
    ensures var once := Imported(book, csvText);
            var twice := Imported(once.book, csvText);
            && twice.book == once.book && twice.added == 0
            && twice.updated == once.added + once.updated && twice.rejected == once.rejected
  {
    if HasRows(csvText) {
      var once := Imported(book, csvText);
      var parsed, contacts := Csv.Parsed(csvText), Contacts(csvText);
      var c := ReadColumns(parsed[0]);
      ImportMeaning(book, csvText);
      ImportMeaning(once.book, csvText);
      ImportRowsMeaning(Progress(book, {}, 0, 0, []), parsed[1..], 2, c);
      ImportRowsMeaning(Progress(once.book, {}, 0, 0, []), parsed[1..], 2, c);
      MergeIdempotent(book, contacts);
      RejectedSame(Progress(book, {}, 0, 0, []), Progress(once.book, {}, 0, 0, []), parsed[1..], 2, c);
    }
  }

  // ---------------------------------------------------------------- the other operations

  /** `saveAddress`: the new fields over the saved ones; an absent memo keeps the saved one. */
  function Saved(book: seq<Entry>, entry: Entry, now: int): seq<Entry> {
    var i := FindKey(book, entry.publicKey);
    if i < |book| then
      var memo := if entry.memo.Some? then entry.memo else book[i].memo;
      book[i := Entry(entry.publicKey, entry.labelText, memo, Some(now))]
    else book + [entry.(lastUsed := Some(now))]
  }

  function UnlessKey(key: string): Entry -> seq<Entry> { (e: Entry) => if e.publicKey == key then [] else [e] }

  /** `removeAddress` */
  function Removed(book: seq<Entry>, key: string): seq<Entry> { FlatMap(UnlessKey(key), book) }

  lemma SavedFacts(book: seq<Entry>, entry: Entry, now: int)
    requires DistinctKeys(book)
    ensures var b := Saved(book, entry, now);
            && DistinctKeys(b) && Keys(b) == Keys(book) + {entry.publicKey}
            && (exists i :: 0 <= i < |b| && b[i].publicKey == entry.publicKey && b[i].labelText == entry.labelText
                            && b[i].lastUsed == Some(now))
            && |b| == |book| + (if entry.publicKey in Keys(book) then 0 else 1)
            && (forall i :: 0 <= i < |book| && book[i].publicKey != entry.publicKey ==> b[i] == book[i])
            && (forall i :: 0 <= i < |book| && book[i].publicKey == entry.publicKey ==>
                  b[i].memo == if entry.memo == None then book[i].memo else entry.memo)
            && (entry.publicKey !in Keys(book) ==> b[|book|].memo == entry.memo)
  {
    var b, k := Saved(book, entry, now), FindKey(book, entry.publicKey);
    forall i | 0 <= i < |book| ensures book[i].publicKey in Keys(book) { assert book[i] in book; }
    assert forall i :: 0 <= i < |book| ==> b[i].publicKey == book[i].publicKey;
    MergedKeys(book, b, entry.publicKey, k);
    assert b[k].publicKey == entry.publicKey;
  }

  lemma {:induction false} RemovedIn(book: seq<Entry>, key: string)
    ensures forall e :: e in Removed(book, key) <==> e in book && e.publicKey != key
    ensures key !in Keys(book) ==> Removed(book, key) == book
  {
    if book != [] {
      var e, rest := book[0], book[1..];
      RemovedIn(rest, key);
      assert book == [e] + rest;
      assert Removed(book, key) == UnlessKey(key)(e) + Removed(rest, key);
      assert e in book && Keys(book) == {e.publicKey} + Keys(rest);
    }
  }

  lemma DistinctCons(e: Entry, rest: seq<Entry>)
    ensures DistinctKeys([e] + rest) <==> DistinctKeys(rest) && forall x :: x in rest ==> x.publicKey != e.publicKey
  {
    var all := [e] + rest;
    assert forall i :: 0 < i < |all| ==> all[i] == rest[i - 1] && rest[i - 1] in rest;
    if DistinctKeys(all) {
      forall x | x in rest ensures x.publicKey != e.publicKey {
        var i :| 0 <= i < |rest| && rest[i] == x;
        assert all[0].publicKey != all[i + 1].publicKey;
      }
      forall i, j | 0 <= i < j < |rest| ensures rest[i].publicKey != rest[j].publicKey {
        assert all[i + 1].publicKey != all[j + 1].publicKey;
      }
    }
  }

  lemma {:induction false} RemovedDistinct(book: seq<Entry>, key: string)
    requires DistinctKeys(book)
    ensures DistinctKeys(Removed(book, key))
  {
    if book != [] {
      var e, rest := book[0], book[1..];
      assert book == [e] + rest;
      DistinctCons(e, rest);
      RemovedDistinct(rest, key);
      RemovedIn(rest, key);
      DistinctCons(e, Removed(rest, key));
    }
  }

  /** Removing what was just saved gives the book back, when the address was not in it. */
  lemma RemoveUndoesSave(book: seq<Entry>, entry: Entry, now: int)
    requires DistinctKeys(book) && entry.publicKey !in Keys(book)
    ensures Removed(Saved(book, entry, now), entry.publicKey) == book
  {
    var added := entry.(lastUsed := Some(now));
    assert Saved(book, entry, now) == book + [added];
    FlatMapConcat(UnlessKey(entry.publicKey), book, [added]);
    FlatMapOne(UnlessKey(entry.publicKey), added);
    RemovedIn(book, entry.publicKey);
    assert book + [] == book;
  }

  // ---------------------------------------------------------------- the stored book

  datatype Operation = Import(csvText: string) | Save(entry: Entry, now: int) | Remove(key: string)

  function After(book: seq<Entry>, op: Operation): seq<Entry> {
    match op
    case Import(csvText) => Imported(book, csvText).book
    case Save(entry, now) => Saved(book, entry, now)
    case Remove(key) => Removed(book, key)
  }

  function AfterAll(book: seq<Entry>, ops: seq<Operation>): seq<Entry>
    decreases |ops|
  {
    if ops == [] then book else AfterAll(After(book, ops[0]), ops[1..])
  }

  /** In every book that the operations can make, no address occurs twice. */
  lemma {:induction false} AlwaysDistinct(book: seq<Entry>, ops: seq<Operation>)
    requires DistinctKeys(book)
    ensures DistinctKeys(AfterAll(book, ops))
    decreases |ops|
  {
    if ops != [] {
      match ops[0] {
        case Import(csvText) => if HasRows(csvText) { ImportMeaning(book, csvText); }
        case Save(entry, now) => SavedFacts(book, entry, now);
        case Remove(key) => RemovedDistinct(book, key);
      }
      AlwaysDistinct(After(book, ops[0]), ops[1..]);
    }
  }

  class Storage {
    var book: seq<Entry>

    constructor ()
      ensures book == []
    {
      book := [];
    }

    /** The loop of `importAddressBookCsv` over the data rows. */
    method ImportDataRows(rows: seq<Csv.Row>, c: Columns) returns (p: Progress)
      ensures p == ImportRows(Progress(book, {}, 0, 0, []), rows, 2, c)
    {
      p := Progress(book, {}, 0, 0, []);
      ghost var start := p;
      for i := 0 to |rows|
        invariant ImportRows(p, rows[i..], i + 2, c) == ImportRows(start, rows, 2, c)
      {
        assert rows[i..][0] == rows[i] && rows[i..][1..] == rows[i + 1..];
        p := ImportDataRow(p, rows[i], i + 2, c);
      }
    }

    /** The body of that loop. */
    method ImportDataRow(p: Progress, cells: Csv.Row, row: nat, c: Columns) returns (q: Progress)
      ensures q == ImportRow(p, cells, row, c)
    {
      var problems := Problems(cells, c, p.seen);
      if problems != [] { return p.(rejected := p.rejected + [Rejection(row, problems)]); }
      var contact := ReadContact(cells, c);
      var entries, seenInFile, added, updated := p.book, p.seen + {contact.publicKey}, p.added, p.updated;
      var existing := FindKey(entries, contact.publicKey);
      if existing < |entries| {
        entries := entries[existing := UpdatedBy(entries[existing], contact)];
        updated := updated + 1;
      } else {
        entries := entries + [NewEntry(contact)];
        added := added + 1;
      }
      return Progress(entries, seenInFile, added, updated, p.rejected);
    }

    /** `importAddressBookCsv` */
    method ImportAddressBookCsv(csvText: string) returns (added: nat, updated: nat, rejected: seq<Rejection>)
      modifies this
      ensures Outcome(book, added, updated, rejected) == Imported(old(book), csvText)
    {
      var parsed := Csv.ParseCsvText(csvText);
      if |parsed| < 2 { return 0, 0, [Rejection(1, [NoContacts])]; }
      var c := ReadColumns(parsed[0]);
      if c.labelAt == c.count || c.addressAt == c.count { return 0, 0, [Rejection(1, [NoColumns])]; }
      var p := ImportDataRows(parsed[1..], c);
      NothingCountedNothingDone(Progress(book, {}, 0, 0, []), parsed[1..], 2, c);
      if p.added > 0 || p.updated > 0 { book := p.book; }
      return p.added, p.updated, p.rejected;
    }

    method SaveAddress(entry: Entry, now: int)
      modifies this
      ensures book == Saved(old(book), entry, now)
    {
      var i := FindKey(book, entry.publicKey);
      if i < |book| {
        var memo := if entry.memo.Some? then entry.memo else book[i].memo;
        book := book[i := Entry(entry.publicKey, entry.labelText, memo, Some(now))];
      } else {
        book := book + [entry.(lastUsed := Some(now))];
      }
    }

    method RemoveAddress(key: string)
      modifies this
      ensures book == Removed(old(book), key)
    {
      book := FlatMap(UnlessKey(key), book);
    }
  }

  // ---------------------------------------------------------------- merging a selection

  function UnlessIn(existing: set<string>): Entry -> seq<Entry> {
    (e: Entry) => if e.publicKey in existing then [] else [e]
  }

  function TrimmedSet(addresses: seq<string>): set<string> { set a | a in addresses :: Trim(a) }

  /** `mergeAddressBookSelections` */
  function MergeSelections(entries: seq<Entry>, existing: seq<string>): seq<Entry> {
    FlatMap(UnlessIn(TrimmedSet(existing)), entries)
  }

  function KeyOf(e: Entry): string { e.publicKey }

  lemma {:induction false} KeptUnlessIn(existing: set<string>, entries: seq<Entry>)
    ensures forall e :: e in FlatMap(UnlessIn(existing), entries) <==> e in entries && e.publicKey !in existing
  {
    if entries != [] {
      KeptUnlessIn(existing, entries[1..]);
      assert entries == [entries[0]] + entries[1..];
      assert FlatMap(UnlessIn(existing), entries) ==
             UnlessIn(existing)(entries[0]) + FlatMap(UnlessIn(existing), entries[1..]);
    }
  }

  /** What is selected once is not offered again, provided its saved address has no white space around it. */
  lemma SelectedOnce(entries: seq<Entry>, existing: seq<string>, e: Entry)
    requires e in MergeSelections(entries, existing) && Trim(e.publicKey) == e.publicKey
    ensures e !in MergeSelections(entries, existing + Map(KeyOf, MergeSelections(entries, existing)))
  {
    var once := MergeSelections(entries, existing);
    var more := existing + Map(KeyOf, once);
    KeptUnlessIn(TrimmedSet(more), entries);
    var i :| 0 <= i < |once| && once[i] == e;
    assert more[|existing| + i] == e.publicKey;
    assert e.publicKey in more;
  }
}
