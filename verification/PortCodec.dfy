/** The argument of the PORT command (section 4.1.2 of RFC 959): address and port as six decimal numbers. */
module PortCodec {
  import opened Basics
  import opened Octets

  const COMMA: byte := 44
  const ZERO: byte := 48

  datatype Address = Address(a: byte, b: byte, c: byte, d: byte)

  // ---------------------------------------------------------------------------------------------
  // Writing
  // ---------------------------------------------------------------------------------------------

  /** `%d` of a number that is not negative. */
  function Decimal(n: nat): (s: seq<byte>)
    ensures s != []
  {
    if n < 10 then [ZERO + n as byte] else Decimal(n / 10) + [ZERO + (n % 10) as byte]
  }

  /** `inet_ntoa` */
  function Ntoa(h: Address): seq<byte> {
    Decimal(h.a as nat) + [DOT] + Decimal(h.b as nat) + [DOT] + Decimal(h.c as nat) + [DOT] + Decimal(h.d as nat)
  }

  function Commas(s: seq<byte>): (r: seq<byte>)
    ensures |r| == |s|
  {
    if s == [] then [] else [if s[0] == DOT then COMMA else s[0]] + Commas(s[1..])
  }

  /** The argument that `useraddr` sends. */
  function PortArgument(h: Address, port: nat): seq<byte> {
    Commas(Ntoa(h)) + [COMMA] + Decimal(port / 256) + [COMMA] + Decimal(port % 256)
  }

  // ---------------------------------------------------------------------------------------------
  // Reading
  // ---------------------------------------------------------------------------------------------

  function Number(s: seq<byte>): Option<nat> {
    if s == [] || !IsDigit(s[|s| - 1]) then None
    else if |s| == 1 then Some((s[0] - ZERO) as nat)
    else
      match Number(s[..|s| - 1])
      case None => None
      case Some(n) => Some(10 * n + (s[|s| - 1] - ZERO) as nat)
  }

  /** Cut at the commas. */
  function Fields(s: seq<byte>): (fs: seq<seq<byte>>)
    ensures fs != []
  {
    if s == [] then [[]]
    else
      var fs := Fields(s[1..]);
      if s[0] == COMMA then [[]] + fs else [[s[0]] + fs[0]] + fs[1..]
  }

  function Small(s: seq<byte>): Option<byte> {
    match Number(s)
    case None => None
    case Some(n) => if n < 256 then Some(n as byte) else None
  }

  /** What a server makes of the argument: h1,h2,h3,h4,p1,p2. */
  function ParsePort(s: seq<byte>): Option<(Address, nat)> {
    var fs := Fields(s);
    if |fs| != 6 then None
    else
      match (Small(fs[0]), Small(fs[1]), Small(fs[2]), Small(fs[3]), Small(fs[4]), Small(fs[5]))
      case (Some(a), Some(b), Some(c), Some(d), Some(hi), Some(lo)) =>
        Some((Address(a, b, c, d), hi as nat * 256 + lo as nat))
      case _ => None
  }

  // ---------------------------------------------------------------------------------------------
  // Round trip
  // ---------------------------------------------------------------------------------------------

  lemma {:induction false} DecimalRoundTrip(n: nat)
    ensures Number(Decimal(n)) == Some(n)
    ensures forall k :: 0 <= k < |Decimal(n)| ==> IsDigit(Decimal(n)[k])
  {
    if n >= 10 {
      DecimalRoundTrip(n / 10);
      var s := Decimal(n);
      assert s[..|s| - 1] == Decimal(n / 10);
    }
  }

  lemma {:induction false} CommasAppend(a: seq<byte>, b: seq<byte>)
    ensures Commas(a + b) == Commas(a) + Commas(b)
  {
    if a == [] {
      assert a + b == b;
    } else {
      assert (a + b)[1..] == a[1..] + b;
      CommasAppend(a[1..], b);
    }
  }

  lemma {:induction false} CommasOfDigits(s: seq<byte>)
    requires forall k :: 0 <= k < |s| ==> IsDigit(s[k])
    ensures Commas(s) == s
  {
    if s != [] {
      CommasOfDigits(s[1..]);
    }
  }

  lemma {:induction false} FieldsLast(s: seq<byte>)
    requires COMMA !in s
    ensures Fields(s) == [s]
  {
    if s != [] {
      FieldsLast(s[1..]);
      assert [s[0]] + s[1..] == s;
    }
  }

  lemma {:induction false} FieldsFirst(s: seq<byte>, rest: seq<byte>)
    requires COMMA !in s
    ensures Fields(s + [COMMA] + rest) == [s] + Fields(rest)
  {
    var t := s + [COMMA] + rest;
    if s == [] {
      assert t[1..] == rest;
    } else {
      assert t[1..] == s[1..] + [COMMA] + rest;
      FieldsFirst(s[1..], rest);
      assert [s[0]] + s[1..] == s;
      assert Fields(t[1..])[1..] == Fields(rest);
    }
  }

  lemma CommasOfDecimal(n: nat, rest: seq<byte>)
    ensures Commas(Decimal(n)) == Decimal(n)
    ensures Commas(Decimal(n) + [DOT] + rest) == Decimal(n) + [COMMA] + Commas(rest)
  {
    DecimalRoundTrip(n);
    CommasOfDigits(Decimal(n));
    CommasAppend(Decimal(n) + [DOT], rest);
    CommasAppend(Decimal(n), [DOT]);
    assert [DOT][1..] == [];
    assert Commas([DOT]) == [COMMA];
  }

  lemma FieldOfDecimal(n: nat, rest: seq<byte>)
    ensures Fields(Decimal(n) + [COMMA] + rest) == [Decimal(n)] + Fields(rest)
    ensures Fields(Decimal(n)) == [Decimal(n)]
    ensures n < 256 ==> Small(Decimal(n)) == Some(n as byte)
  {
    DecimalRoundTrip(n);
    FieldsFirst(Decimal(n), rest);
    FieldsLast(Decimal(n));
  }

  /** The address with the dots replaced, and what follows it, as nested fields. */
  lemma PortArgumentForm(h: Address, port: nat)
    ensures PortArgument(h, port) ==
              Decimal(h.a as nat) + [COMMA] + (Decimal(h.b as nat) + [COMMA] + (Decimal(h.c as nat) + [COMMA] +
              (Decimal(h.d as nat) + [COMMA] + (Decimal(port / 256) + [COMMA] + Decimal(port % 256)))))
  {
    hide Decimal, Commas;
    var a, b, c, d := Decimal(h.a as nat), Decimal(h.b as nat), Decimal(h.c as nat), Decimal(h.d as nat);
    assert Ntoa(h) == a + [DOT] + (b + [DOT] + (c + [DOT] + d));
    CommasOfDecimal(h.a as nat, b + [DOT] + (c + [DOT] + d));
    CommasOfDecimal(h.b as nat, c + [DOT] + d);
    CommasOfDecimal(h.c as nat, d);
    CommasOfDecimal(h.d as nat, []);
    Flatten(a, b, c, d, Decimal(port / 256), Decimal(port % 256));
  }

  lemma Flatten(a: seq<byte>, b: seq<byte>, c: seq<byte>, d: seq<byte>, e: seq<byte>, f: seq<byte>)
    ensures (a + [COMMA] + (b + [COMMA] + (c + [COMMA] + d))) + [COMMA] + e + [COMMA] + f
         == a + [COMMA] + (b + [COMMA] + (c + [COMMA] + (d + [COMMA] + (e + [COMMA] + f))))
  {
  }

  /** For every address and every port of 16 bits, the server reads back what was meant. */
  lemma PortRoundTrip(h: Address, port: nat)
    requires port < 0x1_0000
    ensures ParsePort(PortArgument(h, port)) == Some((h, port))
  {
    hide Decimal, Fields, Small, PortArgument;
    var hi, lo := port / 256, port % 256;
    var f6 := Decimal(lo);
    var f5 := Decimal(hi) + [COMMA] + f6;
    var f4 := Decimal(h.d as nat) + [COMMA] + f5;
    var f3 := Decimal(h.c as nat) + [COMMA] + f4;
    var f2 := Decimal(h.b as nat) + [COMMA] + f3;
    PortArgumentForm(h, port);
    FieldOfDecimal(h.a as nat, f2);
    FieldOfDecimal(h.b as nat, f3);
    FieldOfDecimal(h.c as nat, f4);
    FieldOfDecimal(h.d as nat, f5);
    FieldOfDecimal(hi, f6);
    FieldOfDecimal(lo, []);
  }

  lemma DecimalShort(n: nat)
    requires n < 256
    ensures |Decimal(n)| <= 3
  {
    assert n < 10 || n / 10 < 10 || n / 10 / 10 < 10;
    assert n >= 10 ==> |Decimal(n)| == |Decimal(n / 10)| + 1;
    assert n >= 100 ==> |Decimal(n / 10)| == |Decimal(n / 10 / 10)| + 1;
  }

  /** The buffer of 80 bytes is large enough, with the final NUL. */
  lemma ArgumentFits(h: Address, port: nat)
    requires port < 0x1_0000
    ensures |PortArgument(h, port)| <= 23 && |Ntoa(h)| <= |PortArgument(h, port)|
  {
    hide Decimal;
    DecimalShort(h.a as nat);
    DecimalShort(h.b as nat);
    DecimalShort(h.c as nat);
    DecimalShort(h.d as nat);
    DecimalShort(port / 256);
    DecimalShort(port % 256);
  }

  // ---------------------------------------------------------------------------------------------
  // The loop in the buffer
  // ---------------------------------------------------------------------------------------------

  /** `strchr(addr, '.')`, or -1. */
  method Strchr(addr: array<byte>, len: nat) returns (p: int)
    requires len <= addr.Length
    ensures p == -1 ==> DOT !in addr[..len]
    ensures p != -1 ==> 0 <= p < len && addr[p] == DOT
  {
    p := 0;
    while p < len
      invariant 0 <= p <= len
      invariant DOT !in addr[..p]
    {
      if addr[p] == DOT {
        return;
      }
      p := p + 1;
    }
    p := -1;
  }

  function Dots(s: seq<byte>): nat {
    if s == [] then 0 else (if s[0] == DOT then 1 else 0) + Dots(s[1..])
  }

  lemma {:induction false} ReplaceOne(s: seq<byte>, p: nat)
    requires p < |s| && s[p] == DOT
    ensures Commas(s[p := COMMA]) == Commas(s)
    ensures Dots(s[p := COMMA]) < Dots(s)
  {
    if p > 0 {
      assert s[p := COMMA][1..] == s[1..][p - 1 := COMMA];
      ReplaceOne(s[1..], p - 1);
    } else {
      assert s[p := COMMA][1..] == s[1..];
    }
  }

  lemma {:induction false} CommasWithoutDots(s: seq<byte>)
    requires DOT !in s
    ensures Commas(s) == s
  {
    if s != [] {
      CommasWithoutDots(s[1..]);
    }
  }

  /** `while ((p = strchr(addr, '.'))) *p = ',';` on the string of length `len` in the buffer. */
  method ReplaceDots(addr: array<byte>, len: nat)
    requires len <= addr.Length
    modifies addr
    ensures addr[..len] == Commas(old(addr[..len]))
    ensures addr[len..] == old(addr[len..])
  {
    var p := Strchr(addr, len);
    while p != -1
      invariant p == -1 ==> DOT !in addr[..len]
      invariant p != -1 ==> 0 <= p < len && addr[p] == DOT
      invariant Commas(addr[..len]) == Commas(old(addr[..len]))
      invariant addr[len..] == old(addr[len..])
      decreases Dots(addr[..len])
    {
      ReplaceOne(addr[..len], p);
      ghost var was := addr[..len];
      addr[p] := COMMA;
      assert addr[..len] == was[p := COMMA];
      p := Strchr(addr, len);
    }
    CommasWithoutDots(addr[..len]);
  }

  /** Copy the string into the buffer from index `at`. */
  method Place(addr: array<byte>, at: nat, s: seq<byte>)
    requires at + |s| <= addr.Length
    modifies addr
    ensures addr[..at] == old(addr[..at]) && addr[at..at + |s|] == s
  {
    forall i | 0 <= i < |s| {
      addr[at + i] := s[i];
    }
  }

  /** `strcpy`, the loop, and `sprintf(addr + strlen(addr), ",%d,%d", ...)`; the result is the string in `addr`. */
  method FormatArgument(h: Address, port: nat, addr: array<byte>) returns (len: nat)
    requires port < 0x1_0000 && addr.Length == 80
    modifies addr
    ensures len <= addr.Length && addr[..len] == PortArgument(h, port)
  {
    hide Decimal, Ntoa, Commas;
    ArgumentFits(h, port);
    var ina := Ntoa(h);
    Place(addr, 0, ina);
    assert addr[..|ina|] == addr[0..0 + |ina|];
    ReplaceDots(addr, |ina|);
    var tail := [COMMA] + Decimal(port / 256) + [COMMA] + Decimal(port % 256);
    assert PortArgument(h, port) == Commas(ina) + tail;
    Place(addr, |ina|, tail);
    len := |ina| + |tail|;
    assert addr[..len] == addr[..|ina|] + addr[|ina|..len];
  }
}
