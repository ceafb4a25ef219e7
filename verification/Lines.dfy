/** Lines ended by CRLF. */
module Lines {
  import opened Octets

  /** The position of the first CRLF, or -1. */
  function FindCrlf(s: seq<byte>): (r: int)
    ensures r == -1 || 0 <= r <= |s| - 2
  {
    if |s| < 2 then -1
    else if s[0] == CR && s[1] == LF then 0
    else
      var r := FindCrlf(s[1..]);
      if r == -1 then -1 else r + 1
  }

  ghost predicate CrlfAt(s: seq<byte>, j: int) {
    0 <= j < |s| - 1 && s[j] == CR && s[j + 1] == LF
  }

  /** It is the least of all positions. */
  lemma {:induction false} FindCrlfFirst(s: seq<byte>)
    ensures FindCrlf(s) != -1 ==> CrlfAt(s, FindCrlf(s))
    ensures forall j :: CrlfAt(s, j) ==> 0 <= FindCrlf(s) <= j
  {
    if |s| >= 2 && !CrlfAt(s, 0) {
      FindCrlfFirst(s[1..]);
      forall j | CrlfAt(s, j) ensures 0 <= FindCrlf(s) <= j {
        assert CrlfAt(s[1..], j - 1);
      }
    }
  }

  /** A complete line: some bytes with no CRLF among them, then CRLF. */
  predicate IsLine(s: seq<byte>) {
    |s| >= 2 && FindCrlf(s) == |s| - 2
  }

  lemma FindCrlfIs(s: seq<byte>, i: nat)
    requires CrlfAt(s, i) && forall j :: 0 <= j < i ==> !CrlfAt(s, j)
    ensures FindCrlf(s) == i
  {
    FindCrlfFirst(s);
  }

  /** What comes later does not change where the first line ends. */
  lemma FindCrlfInFront(a: seq<byte>, b: seq<byte>)
    requires FindCrlf(a) != -1
    ensures FindCrlf(a + b) == FindCrlf(a)
  {
    var s, i := a + b, FindCrlf(a);
    FindCrlfFirst(a);
    forall j | 0 <= j < i ensures !CrlfAt(s, j) {
      assert !CrlfAt(a, j);
    }
    FindCrlfIs(s, i);
  }

  lemma LineWithoutLf(text: seq<byte>)
    requires LF !in text
    ensures IsLine(text + CRLF)
  {
    var s := text + CRLF;
    forall j | 0 <= j < |text| ensures !CrlfAt(s, j) {
      assert j + 1 < |text| ==> s[j + 1] == text[j + 1];
    }
    FindCrlfIs(s, |text|);
  }
}
