/** The shape of Stellar account addresses, as `src/lib/stellar.ts` checks it. */
module Stellar {

  /** `isValidStellarAddress` */
  predicate IsStellarAddress(s: string) {
    |s| == 56 && s[0] == 'G' && forall i :: 1 <= i < 56 ==> 'A' <= s[i] <= 'Z' || '0' <= s[i] <= '9'
  }

  /** In code points: a `G`, and 55 large letters or digits. */
  lemma AddressesAre(s: string)
    ensures IsStellarAddress(s) <==>
            && |s| == 1 + 55 && s[0] as int == 71
            && forall i :: 1 <= i < |s| ==> 65 <= s[i] as int <= 90 || 48 <= s[i] as int <= 57
  {}
}
