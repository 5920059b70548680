/** UTF-8 as sections 3 and 4 of RFC 3629 define it, over bytes written as numbers. */
module Utf8 {

  type byte = b: nat | b < 256

  datatype Decoded = Invalid | Valid(cp: nat, width: nat)

  predicate IsScalar(cp: nat) {
    cp < 0xD800 || 0xE000 <= cp <= 0x10FFFF
  }

  predicate IsContinuation(b: byte) {
    0x80 <= b < 0xC0
  }

  /** How many continuation bytes the first byte announces; 0 for a byte that starts no sequence of several. */
  function Needed(first: byte): (n: nat)
    ensures n <= 3
  {
    if 0xC2 <= first <= 0xDF then 1
    else if 0xE0 <= first <= 0xEF then 2
    else if 0xF0 <= first <= 0xF4 then 3
    else 0
  }

  /** The payload bits of a first byte that announces `n` continuation bytes. */
  function LeadBits(first: byte, n: nat): (bits: nat) {
    var value: int := first;
    if n == 1 then value % 0x20 else if n == 2 then value % 0x10 else value % 8
  }

  function LowBits(b: byte): (bits: nat)
    ensures bits < 64
  {
    var value: int := b;
    value % 64
  }

  /** The value collected from the first byte and the first `k` continuation bytes. */
  function Collected(s: seq<byte>, n: nat, k: nat): nat
    requires k < |s|
  {
    if k == 0 then LeadBits(s[0], n) else Collected(s, n, k - 1) * 64 + LowBits(s[k])
  }

  predicate Overlong(value: nat, n: nat) {
    (n == 2 && value < 0x800) || (n == 3 && value < 0x10000)
  }

  function Decode(s: seq<byte>): Decoded
    requires |s| > 0
  {
    var n := Needed(s[0]);
    if s[0] < 0x80 then Valid(s[0], 1)
    else if n == 0 || |s| <= n || exists i :: 1 <= i <= n && !IsContinuation(s[i]) then Invalid
    else
      var value := Collected(s, n, n);
      if Overlong(value, n) || !IsScalar(value) then Invalid else Valid(value, n + 1)
  }

  function Encode(cp: nat): (bytes: seq<byte>)
    requires cp <= 0x10FFFF
    ensures 1 <= |bytes| <= 4
  {
    if cp < 0x80 then [cp]
    else if cp < 0x800 then [0xC0 + cp / 64, 0x80 + cp % 64]
    else if cp < 0x10000 then [0xE0 + cp / 4096, 0x80 + cp / 64 % 64, 0x80 + cp % 64]
    else [0xF0 + cp / 0x40000, 0x80 + cp / 4096 % 64, 0x80 + cp / 64 % 64, 0x80 + cp % 64]
  }

  /** Decodes the character at `p`; `next` is meaningful only when the bytes are well formed. */
  method DecodeAt(text: seq<byte>, p: nat, end: nat) returns (ok: bool, cp: nat, next: nat)
    requires p < end <= |text|
    ensures ok <==> Decode(text[p..end]).Valid?
    ensures ok ==> p < next <= end && Decode(text[p..end]) == Valid(cp, next - p)
  {
    var s := text[p..end];
    var c := text[p];
    if c < 0x80 {
      return true, c, p + 1;
    }
    var needed := Needed(c);
    if needed == 0 || end - p <= needed {
      return false, 0, p;
    }
    var value := LeadBits(c, needed);
    for i := 1 to needed + 1
      invariant value == Collected(s, needed, i - 1)
      invariant forall k :: 1 <= k < i ==> IsContinuation(s[k])
    {
      if !IsContinuation(text[p + i]) {
        assert !IsContinuation(s[i]);
        return false, 0, p;
      }
      value := value * 64 + LowBits(text[p + i]);
    }
    if Overlong(value, needed) || !IsScalar(value) {
      return false, 0, p;
    }
    return true, value, p + needed + 1;
  }

  lemma CollectedTwo(s: seq<byte>)
    requires |s| >= 2
    ensures Collected(s, 1, 1) == LeadBits(s[0], 1) * 64 + LowBits(s[1])
  {
    assert Collected(s, 1, 0) == LeadBits(s[0], 1);
  }

  lemma CollectedThree(s: seq<byte>)
    requires |s| >= 3
    ensures Collected(s, 2, 2) == (LeadBits(s[0], 2) * 64 + LowBits(s[1])) * 64 + LowBits(s[2])
  {
    assert Collected(s, 2, 0) == LeadBits(s[0], 2);
    assert Collected(s, 2, 1) == LeadBits(s[0], 2) * 64 + LowBits(s[1]);
  }

  lemma CollectedFour(s: seq<byte>)
    requires |s| >= 4
    ensures Collected(s, 3, 3) == ((LeadBits(s[0], 3) * 64 + LowBits(s[1])) * 64 + LowBits(s[2])) * 64 + LowBits(s[3])
  {
    assert Collected(s, 3, 0) == LeadBits(s[0], 3);
    assert Collected(s, 3, 1) == LeadBits(s[0], 3) * 64 + LowBits(s[1]);
    assert Collected(s, 3, 2) == (LeadBits(s[0], 3) * 64 + LowBits(s[1])) * 64 + LowBits(s[2]);
  }

  /** Writing a number in base 64 and reading it back. */
  lemma Base64Digits(cp: nat)
    ensures cp / 4096 == cp / 64 / 64 && cp / 0x40000 == cp / 4096 / 64
    ensures cp == cp / 64 * 64 + cp % 64
    ensures cp / 64 == cp / 4096 * 64 + cp / 64 % 64
    ensures cp / 4096 == cp / 0x40000 * 64 + cp / 4096 % 64
  {
  }

  lemma DecodeTwo(cp: nat, s: seq<byte>)
    requires 0x80 <= cp < 0x800 && |s| >= 2 && s[..2] == Encode(cp)
    ensures Decode(s) == Valid(cp, 2)
  {
    Base64Digits(cp);
    assert s[0] == s[..2][0] && s[1] == s[..2][1];
    CollectedTwo(s);
  }

  lemma DecodeThree(cp: nat, s: seq<byte>)
    requires 0x800 <= cp < 0x10000 && IsScalar(cp) && |s| >= 3 && s[..3] == Encode(cp)
    ensures Decode(s) == Valid(cp, 3)
  {
    Base64Digits(cp);
    assert s[0] == s[..3][0] && s[1] == s[..3][1] && s[2] == s[..3][2];
    CollectedThree(s);
    assert LeadBits(s[0], 2) == cp / 4096 && LowBits(s[1]) == cp / 64 % 64 && LowBits(s[2]) == cp % 64;
    assert Collected(s, 2, 2) == cp;
    assert IsContinuation(s[1]) && IsContinuation(s[2]);
  }

  lemma DigitsOfFour(cp: nat) returns (a: nat, b: nat, c: nat, d: nat)
    requires 0x10000 <= cp <= 0x10FFFF
    ensures Encode(cp) == [0xF0 + a, 0x80 + b, 0x80 + c, 0x80 + d]
    ensures a <= 4 && b < 64 && c < 64 && d < 64 && cp == ((a * 64 + b) * 64 + c) * 64 + d
  {
    a, b, c, d := cp / 0x40000, cp / 4096 % 64, cp / 64 % 64, cp % 64;
    Base64Digits(cp);
  }

  lemma LeadOfFour(first: byte)
    requires 0xF0 <= first <= 0xF4
    ensures Needed(first) == 3 && LeadBits(first, 3) == first - 0xF0
  {
  }

  lemma LowOf(b: byte)
    requires 0x80 <= b < 0xC0
    ensures IsContinuation(b) && LowBits(b) == b - 0x80
  {
  }

  lemma DecodeFour(cp: nat, s: seq<byte>)
    requires 0x10000 <= cp <= 0x10FFFF && |s| >= 4 && s[..4] == Encode(cp)
    ensures Decode(s) == Valid(cp, 4)
  {
    hide Encode, LeadBits, LowBits, Needed, IsContinuation, Collected;
    var a, b, c, d := DigitsOfFour(cp);
    assert s[0] == s[..4][0] && s[1] == s[..4][1] && s[2] == s[..4][2] && s[3] == s[..4][3];
    LeadOfFour(s[0]);
    LowOf(s[1]);
    LowOf(s[2]);
    LowOf(s[3]);
    CollectedFour(s);
  }

  /** Whatever follows it, an encoded scalar value decodes to itself and to its own width. */
  lemma DecodeAfterEncode(cp: nat, rest: seq<byte>)
    requires IsScalar(cp)
    ensures Decode(Encode(cp) + rest) == Valid(cp, |Encode(cp)|)
  {
    hide Decode;
    var s := Encode(cp) + rest;
    assert s[..|Encode(cp)|] == Encode(cp);
    if cp < 0x80 {
      assert Decode(s) == Valid(cp, 1) by {
        DecodeOne(s);
      }
    } else if cp < 0x800 {
      DecodeTwo(cp, s);
    } else if cp < 0x10000 {
      DecodeThree(cp, s);
    } else {
      DecodeFour(cp, s);
    }
  }

  lemma DecodeOne(s: seq<byte>)
    requires |s| > 0 && s[0] < 0x80
    ensures Decode(s) == Valid(s[0], 1)
  {
  }

  lemma {:induction false} EncodeTwo(s: seq<byte>)
    requires |s| >= 2 && Needed(s[0]) == 1 && IsContinuation(s[1])
    ensures var cp := Collected(s, 1, 1); 0x80 <= cp < 0x800 && Encode(cp) == s[..2]
  {
    CollectedTwo(s);
  }

  lemma EncodeThree(s: seq<byte>)
    requires |s| >= 3 && Needed(s[0]) == 2 && IsContinuation(s[1]) && IsContinuation(s[2])
    ensures var cp := Collected(s, 2, 2); cp < 0x10000 && (cp >= 0x800 ==> Encode(cp) == s[..3])
  {
    CollectedThree(s);
    var cp := Collected(s, 2, 2);
    assert cp / 64 == LeadBits(s[0], 2) * 64 + LowBits(s[1]);
    assert cp / 4096 == LeadBits(s[0], 2) by { Base64Digits(cp); }
  }

  /** The four bytes of a value, by its digits in base 64. */
  lemma FourBytes(cp: nat, a: nat, b: nat, c: nat, d: nat)
    requires cp == ((a * 64 + b) * 64 + c) * 64 + d && b < 64 && c < 64 && d < 64 && 0x10000 <= cp <= 0x10FFFF
    ensures Encode(cp) == [0xF0 + a, 0x80 + b, 0x80 + c, 0x80 + d]
  {
    assert cp / 64 == (a * 64 + b) * 64 + c;
    assert cp / 4096 == a * 64 + b by { Base64Digits(cp); }
    assert cp / 0x40000 == a by { Base64Digits(cp); }
  }

  lemma EncodeFour(s: seq<byte>)
    requires |s| >= 4 && Needed(s[0]) == 3 && IsContinuation(s[1]) && IsContinuation(s[2]) && IsContinuation(s[3])
    ensures var cp := Collected(s, 3, 3); 0x10000 <= cp <= 0x10FFFF ==> Encode(cp) == s[..4]
  {
    CollectedFour(s);
    var cp := Collected(s, 3, 3);
    assert s[0] == 0xF0 + LeadBits(s[0], 3);
    assert forall k :: 1 <= k <= 3 ==> s[k] == 0x80 + LowBits(s[k]);
    hide *;
    if 0x10000 <= cp <= 0x10FFFF {
      FourBytes(cp, LeadBits(s[0], 3), LowBits(s[1]), LowBits(s[2]), LowBits(s[3]));
    }
  }

  /** A successful decode consumed exactly the encoding of the value it returned. */
  lemma EncodeAfterDecode(s: seq<byte>)
    requires |s| > 0 && Decode(s).Valid?
    ensures var Valid(cp, width) := Decode(s); IsScalar(cp) && width <= |s| && Encode(cp) == s[..width]
  {
    var Valid(cp, width) := Decode(s);
    hide Encode, Collected;
    if width == 1 {
      EncodeOne(s);
    } else if width == 2 {
      assert IsContinuation(s[1]);
      EncodeTwo(s);
    } else if width == 3 {
      assert IsContinuation(s[1]) && IsContinuation(s[2]);
      EncodeThree(s);
    } else {
      assert IsContinuation(s[1]) && IsContinuation(s[2]) && IsContinuation(s[3]);
      EncodeFour(s);
    }
  }

  lemma EncodeOne(s: seq<byte>)
    requires |s| > 0 && s[0] < 0x80
    ensures Encode(s[0]) == s[..1]
  {
  }

  /** Only the bytes of the character itself decide how it decodes. */
  lemma DecodeIsLocal(s: seq<byte>, m: nat)
    requires 0 < m <= |s|
    ensures Decode(s).Invalid? ==> Decode(s[..m]).Invalid?
    ensures Decode(s).Valid? && Decode(s).width <= m ==> Decode(s[..m]) == Decode(s)
    ensures Decode(s).Valid? && Decode(s).width > m ==> Decode(s[..m]).Invalid?
  {
    var n := Needed(s[0]);
    if n < m {
      CollectedIsLocal(s, m, n, n);
      assert forall i :: 1 <= i <= n ==> s[..m][i] == s[i];
    }
  }

  lemma {:induction false} CollectedIsLocal(s: seq<byte>, m: nat, n: nat, k: nat)
    requires k < m <= |s|
    ensures Collected(s[..m], n, k) == Collected(s, n, k)
  {
    if k > 0 {
      CollectedIsLocal(s, m, n, k - 1);
    }
  }

  predicate AllScalar(cps: seq<nat>) {
    forall k :: 0 <= k < |cps| ==> IsScalar(cps[k])
  }

  function EncodeAll(cps: seq<nat>): (bytes: seq<byte>)
    requires AllScalar(cps)
    ensures |bytes| >= |cps|
  {
    if cps == [] then [] else Encode(cps[0]) + EncodeAll(cps[1..])
  }

  lemma {:induction false} EncodeAllAppends(xs: seq<nat>, ys: seq<nat>)
    requires AllScalar(xs) && AllScalar(ys)
    ensures AllScalar(xs + ys) && EncodeAll(xs + ys) == EncodeAll(xs) + EncodeAll(ys)
  {
    if xs == [] {
      assert xs + ys == ys;
    } else {
      EncodeAllAppends(xs[1..], ys);
      assert (xs + ys)[1..] == xs[1..] + ys;
    }
  }

  /** Position `i` of an encoded text is where the encoding of one of its code points starts, or its end. */
  ghost predicate IsBoundary(cps: seq<nat>, i: nat)
    requires AllScalar(cps)
  {
    exists k :: 0 <= k <= |cps| && i == |EncodeAll(cps[..k])|
  }

  lemma OnlyFirstLeads(cp: nat, i: nat)
    requires IsScalar(cp) && i < |Encode(cp)| && !IsContinuation(Encode(cp)[i])
    ensures i == 0
  {
  }

  /** A byte that is not a continuation byte stands on a code point boundary. */
  lemma {:induction false} LeadIsBoundary(cps: seq<nat>, i: nat)
    requires AllScalar(cps) && i < |EncodeAll(cps)| && !IsContinuation(EncodeAll(cps)[i])
    ensures IsBoundary(cps, i)
  {
    hide Encode, IsContinuation;
    var first := Encode(cps[0]);
    if i < |first| {
      OnlyFirstLeads(cps[0], i);
      assert cps[..0] == [];
    } else {
      LeadIsBoundary(cps[1..], i - |first|);
      var k :| 0 <= k <= |cps[1..]| && i - |first| == |EncodeAll(cps[1..][..k])|;
      assert cps[..k + 1][1..] == cps[1..][..k];
    }
  }

  /** An encoded needle matches an encoded text only where one of the text's code points starts. */
  lemma {:induction false} MatchStartsOnBoundary(needle: seq<nat>, cps: seq<nat>, i: nat)
    requires AllScalar(needle) && AllScalar(cps) && needle != []
    requires i + |EncodeAll(needle)| <= |EncodeAll(cps)|
    requires EncodeAll(cps)[i..i + |EncodeAll(needle)|] == EncodeAll(needle)
    ensures IsBoundary(cps, i)
  {
    assert EncodeAll(cps)[i] == EncodeAll(needle)[0] == Encode(needle[0])[0];
    LeadIsBoundary(cps, i);
  }
}
