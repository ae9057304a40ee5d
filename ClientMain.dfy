/** `getHostStr(ip, port)` of the client program (Client/main.cpp): the four
    memory bytes of the address, each printed as `int(char)`, then the port,
    all joined by '.'.

    Whether `char` is signed depends on the platform, so it is a parameter.
    The host is little-endian. */
module ClientMain {
  import opened Bytes
  import opened Decimal
  import opened Wire

  /** `int(c)` for the char holding byte b: bytes from 0x80 on are negative
      when `char` is signed. */
  function CharValue(b: uint8, signedChar: bool): (v: int)
    ensures signedChar ==> -128 <= v < 128
    ensures !signedChar ==> v == b as int
    ensures v % 256 == b as int
  {
    if signedChar && b >= 0x80 then b as int - 256 else b as int
  }

  /** One address field: the text of one byte. */
  function HostField(b: uint8, signedChar: bool): string {
    IntToString(CharValue(b, signedChar))
  }

  predicate NoDot(s: string) {
    forall i :: 0 <= i < |s| ==> s[i] != '.'
  }

  /** The text of `std::to_string` never holds a '.'. */
  lemma IntToStringNoDot(i: int)
    ensures NoDot(IntToString(i))
  {
  }

  /** The length of s up to its first '.'. */
  function FieldLength(s: string): (n: nat)
    ensures n <= |s|
    ensures NoDot(s[..n])
    ensures n < |s| ==> s[n] == '.'
  {
    if s == [] || s[0] == '.' then 0
    else
      var n := 1 + FieldLength(s[1..]);
      assert s[..n] == [s[0]] + s[1..][..n - 1];
      n
  }

  /** The '.'-separated fields of s. */
  function SplitDots(s: string): (fields: seq<string>)
    ensures |fields| >= 1
    decreases |s|
  {
    var n := FieldLength(s);
    if n == |s| then [s] else [s[..n]] + SplitDots(s[n + 1..])
  }

  /** Splitting a dot-free text gives the text alone. */
  lemma {:induction false} FieldLengthOfNoDot(a: string, rest: string)
    requires NoDot(a)
    requires rest == [] || rest[0] == '.'
    ensures FieldLength(a + rest) == |a|
    decreases |a|
  {
    if a == [] {
      assert a + rest == rest;
    } else {
      assert (a + rest)[1..] == a[1..] + rest;
      FieldLengthOfNoDot(a[1..], rest);
    }
  }

  /** A dot-free field followed by '.' splits off first. */
  lemma SplitDotsCons(a: string, b: string)
    requires NoDot(a)
    ensures SplitDots(a + "." + b) == [a] + SplitDots(b)
  {
    FieldLengthOfNoDot(a, "." + b);
    assert a + "." + b == a + ("." + b);
    assert (a + "." + b)[..|a|] == a;
    assert (a + "." + b)[|a| + 1..] == b;
  }

  /** Fields joined by '.'. */
  function JoinDots(fields: seq<string>): string
    requires |fields| >= 1
  {
    if |fields| == 1 then fields[0] else fields[0] + "." + JoinDots(fields[1..])
  }

  /** Round trip: dot-free fields joined by '.' split back into the same fields. */
  lemma {:induction false} SplitJoinDots(fields: seq<string>)
    requires |fields| >= 1
    requires forall k :: 0 <= k < |fields| ==> NoDot(fields[k])
    ensures SplitDots(JoinDots(fields)) == fields
    decreases |fields|
  {
    if |fields| == 1 {
      FieldLengthOfNoDot(fields[0], []);
      assert fields[0] + [] == fields[0];
    } else {
      SplitJoinDots(fields[1..]);
      SplitDotsCons(fields[0], JoinDots(fields[1..]));
      assert [fields[0]] + fields[1..] == fields;
    }
  }

  /** The five fields of `getHostStr(ip, port)`: the four memory bytes of ip
      in order, then the unpadded decimal port. */
  function HostFields(ip: uint32, port: uint16, signedChar: bool): (fields: seq<string>)
    ensures |fields| == 5
    ensures forall k :: 0 <= k < 5 ==> NoDot(fields[k])
  {
    var m := MemoryBytes(ip, 4);
    IntToStringNoDot(CharValue(m[0], signedChar));
    IntToStringNoDot(CharValue(m[1], signedChar));
    IntToStringNoDot(CharValue(m[2], signedChar));
    IntToStringNoDot(CharValue(m[3], signedChar));
    IntToStringNoDot(port);
    [HostField(m[0], signedChar), HostField(m[1], signedChar),
     HostField(m[2], signedChar), HostField(m[3], signedChar), IntToString(port)]
  }

  /** `getHostStr(ip, port)`. */
  function GetHostStr(ip: uint32, port: uint16, signedChar: bool): (s: string)
    ensures var f := HostFields(ip, port, signedChar);
      s == f[0] + "." + f[1] + "." + f[2] + "." + f[3] + "." + f[4]
  {
    var f := HostFields(ip, port, signedChar);
    assert f == [f[0], f[1], f[2], f[3], f[4]];
    JoinDotsFive(f[0], f[1], f[2], f[3], f[4]);
    JoinDots(f)
  }

  /** The text has exactly five '.'-separated fields, which are the bytes
      and the port. */
  lemma HostStrFields(ip: uint32, port: uint16, signedChar: bool)
    ensures SplitDots(GetHostStr(ip, port, signedChar)) == HostFields(ip, port, signedChar)
    ensures |SplitDots(GetHostStr(ip, port, signedChar))| == 5
  {
    SplitJoinDots(HostFields(ip, port, signedChar));
  }

  /** The text determines the address and the port: no two endpoints print alike. */
  lemma HostStrInjective(ip1: uint32, port1: uint16, ip2: uint32, port2: uint16, signedChar: bool)
    requires GetHostStr(ip1, port1, signedChar) == GetHostStr(ip2, port2, signedChar)
    ensures ip1 == ip2 && port1 == port2
  {
    HostStrFields(ip1, port1, signedChar);
    HostStrFields(ip2, port2, signedChar);
    var f1, f2 := HostFields(ip1, port1, signedChar), HostFields(ip2, port2, signedChar);
    assert f1 == f2;
    var m1, m2 := MemoryBytes(ip1, 4), MemoryBytes(ip2, 4);
    forall k | 0 <= k < 4
      ensures m1[k] == m2[k]
    {
      assert f1[k] == HostField(m1[k], signedChar);
      assert f2[k] == HostField(m2[k], signedChar);
      IntToStringInjective(CharValue(m1[k], signedChar), CharValue(m2[k], signedChar));
    }
    assert IntToString(port1) == f1[4] == f2[4] == IntToString(port2);
    assert m1 == m2;
    MemoryBytesInjective(ip1, ip2, 4);
    IntToStringInjective(port1, port2);
  }

  /** With signed chars the text starts with '-' exactly when the first
      memory byte is 0x80 or more; with unsigned chars never. */
  lemma HostStrSign(ip: uint32, port: uint16, signedChar: bool)
    ensures GetHostStr(ip, port, signedChar)[0] == '-' <==> signedChar && MemoryBytes(ip, 4)[0] >= 0x80
  {
  }

  /** Five fields joined by '.', written out. */
  lemma JoinDotsFive(a: string, b: string, c: string, d: string, e: string)
    ensures JoinDots([a, b, c, d, e]) == a + "." + b + "." + c + "." + d + "." + e
  {
    assert [a, b, c, d, e][1..] == [b, c, d, e];
    assert [b, c, d, e][1..] == [c, d, e];
    assert [c, d, e][1..] == [d, e];
    assert [d, e][1..] == [e];
    assert JoinDots([d, e]) == d + "." + e;
    assert JoinDots([c, d, e]) == c + "." + (d + "." + e);
    assert JoinDots([b, c, d, e]) == b + "." + (c + "." + (d + "." + e));
    assert JoinDots([a, b, c, d, e]) == a + "." + (b + "." + (c + "." + (d + "." + e)));
  }

  /** The fields of the localhost address. */
  lemma LocalhostFields(port: uint16, signedChar: bool)
    ensures HostFields(LocalhostIP, port, signedChar) == ["127", "0", "0", "1", Dec(port)]
  {
    LocalhostBytes();
    assert Dec(127) == Dec(12) + [DigitChar(7)];
    assert Dec(12) == Dec(1) + [DigitChar(2)];
    assert HostField(127, signedChar) == "127";
    assert HostField(0, signedChar) == "0";
    assert HostField(1, signedChar) == "1";
  }

  /** The localhost address prints as `127.0.0.1.` and the port. */
  lemma LocalhostHostStr(port: uint16, signedChar: bool)
    ensures GetHostStr(LocalhostIP, port, signedChar) == "127.0.0.1." + Dec(port)
  {
    LocalhostFields(port, signedChar);
  }
}
