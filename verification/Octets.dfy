/** Octets and the few ASCII codes the protocols are written with. */
module Octets {

  newtype byte = b: int | 0 <= b < 256

  const NUL: byte := 0
  const LF: byte := 10
  const CR: byte := 13
  const SP: byte := 32
  const DASH: byte := 45
  const DOT: byte := 46

  const CRLF: seq<byte> := [CR, LF]

  predicate IsDigit(b: byte) {
    48 <= b <= 57
  }

  function Concat(blocks: seq<seq<byte>>): seq<byte> {
    if blocks == [] then [] else blocks[0] + Concat(blocks[1..])
  }

  lemma ConcatCons(b: seq<byte>, rest: seq<seq<byte>>)
    ensures Concat([b] + rest) == b + Concat(rest)
  {
    assert ([b] + rest)[1..] == rest;
  }

  lemma ConcatOne(b: seq<byte>)
    ensures Concat([b]) == b
  {
    assert [b][1..] == [];
  }

  lemma Assoc<T>(a: seq<T>, b: seq<T>, c: seq<T>)
    ensures (a + b) + c == a + (b + c)
  {
  }

  lemma SliceJoin<T>(s: seq<T>, w: nat, k: nat)
    requires w + k <= |s|
    ensures s[..w] + s[w..][..k] == s[..w + k]
  {
  }

  lemma SliceOfConcat<T>(a: seq<T>, b: seq<T>, i: nat)
    requires i <= |a|
    ensures (a + b)[..i] == a[..i]
    ensures (a + b)[i..] == a[i..] + b
  {
  }

  lemma ThreeParts<T>(s: seq<T>, i: nat, j: nat)
    requires i <= j <= |s|
    ensures s[..i] + s[i..j] + s[j..] == s
  {
  }

  lemma SuffixOfSuffix<T>(s: seq<T>, a: nat, b: nat)
    requires a + b <= |s|
    ensures s[a..][b..] == s[a + b..]
  {
  }

  lemma {:induction false} ConcatAppend(a: seq<seq<byte>>, b: seq<seq<byte>>)
    ensures Concat(a + b) == Concat(a) + Concat(b)
  {
    if a == [] {
      assert a + b == b;
    } else {
      assert (a + b)[1..] == a[1..] + b;
      ConcatAppend(a[1..], b);
    }
  }
}
