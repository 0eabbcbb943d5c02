/** SHA-256 printed in hex, as a parameter: nothing is assumed of it beyond
    its output format, so every claim holds for every such function. */
module Hashing {

  predicate IsHexDigit(c: char) {
    '0' <= c <= '9' || 'a' <= c <= 'f'
  }

  predicate HexAt(s: string, i: nat)
    requires i < |s|
  {
    IsHexDigit(s[i])
  }

  predicate IsHex64(s: string) {
    |s| == 64 && forall i: nat {:trigger HexAt(s, i)} | i < |s| :: HexAt(s, i)
  }

  ghost predicate PrintsHex(h: string -> string) {
    forall s :: IsHex64(h(s))
  }

  lemma ZerosPrintHex()
    ensures PrintsHex(Zeros)
  {
  }

  function Zeros(s: string): string {
    seq(64, i => '0')
  }

  type Hasher = h: string -> string | PrintsHex(h)
    witness (ZerosPrintHex(); Zeros)

  ghost predicate Collide(H: Hasher, x: string, y: string) {
    x != y && H(x) == H(y)
  }

  /** Two different strings of S with the same hash. S always consists of the
      strings some party actually hashed, so the pair can be exhibited. */
  ghost predicate Collision(H: Hasher, S: set<string>) {
    exists x, y {:trigger Collide(H, x, y)} :: x in S && y in S && Collide(H, x, y)
  }

  /** Without a collision, strings of S with the same hash are the same. */
  lemma SameHash(H: Hasher, S: set<string>, x: string, y: string)
    requires !Collision(H, S) && x in S && y in S
    ensures H(x) == H(y) ==> x == y
  {
    assert !Collide(H, x, y);
  }
}
