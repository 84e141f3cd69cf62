/** Shortest-form UTF-8 for the 21-bit code points the filter can produce. */
module Utf8 {
  import opened Bytes

  const MAX_CODE: nat := 0x1F_FFFF

  predicate IsHigh(c: nat) {
    0xD800 <= c < 0xDC00
  }

  predicate IsLow(c: nat) {
    0xDC00 <= c < 0xE000
  }

  // What may appear in a filtered string: everything up to 21 bits but surrogates.
  predicate IsScalar(c: nat) {
    c <= MAX_CODE && !IsHigh(c) && !IsLow(c)
  }

  predicate AllScalars(cs: seq<nat>) {
    forall i :: 0 <= i < |cs| ==> IsScalar(cs[i])
  }

  // The bytes append_codepoint adds; nothing beyond 21 bits.
  function Encode(c: nat): (u: bytes) {
    if c <= 0x7F then [c]
    else if c <= 0x7FF then [0xC0 + c / 64, 0x80 + c % 64]
    else if c <= 0xFFFF then [0xE0 + c / 64 / 64, 0x80 + c / 64 % 64, 0x80 + c % 64]
    else if c <= MAX_CODE then
      [0xF0 + c / 64 / 64 / 64, 0x80 + c / 64 / 64 % 64, 0x80 + c / 64 % 64, 0x80 + c % 64]
    else []
  }

  function EncodeAll(cs: seq<nat>): bytes {
    if |cs| == 0 then [] else EncodeAll(cs[..|cs| - 1]) + Encode(cs[|cs| - 1])
  }

  // s is a run of complete shortest-form encodings of scalars.
  ghost predicate Normal(s: bytes) {
    exists cs :: AllScalars(cs) && EncodeAll(cs) == s
  }

  // ---- Units: a lead byte and the continuation bytes it announces ----

  predicate IsTrail(b: byte) {
    0x80 <= b < 0xC0
  }

  // How many continuation bytes a lead byte announces; none if it is not a lead byte.
  function TrailCount(lead: byte): Option<nat> {
    if lead < 0x80 then Some(0)
    else if 0xC0 <= lead < 0xE0 then Some(1)
    else if 0xE0 <= lead < 0xF0 then Some(2)
    else if 0xF0 <= lead < 0xF8 then Some(3)
    else None
  }

  predicate IsUnit(u: bytes) {
    |u| > 0 && TrailCount(u[0]) == Some(|u| - 1)
    && forall i :: 0 < i < |u| ==> IsTrail(u[i])
  }

  // Appending six bits to a value.
  function Extend(high: nat, trail: byte): (v: nat)
    requires IsTrail(trail)
    ensures v / 64 == high && v % 64 == trail - 0x80
  {
    64 * high + (trail - 0x80)
  }

  // The payload bits of a lead byte.
  function LeadBits(lead: byte): nat
    requires TrailCount(lead).Some?
  {
    if lead < 0x80 then lead
    else if lead < 0xE0 then lead - 0xC0
    else if lead < 0xF0 then lead - 0xE0
    else lead - 0xF0
  }

  function UnitValue(u: bytes): nat
    requires IsUnit(u)
  {
    var lead := LeadBits(u[0]);
    if |u| == 1 then lead
    else if |u| == 2 then Extend(lead, u[1])
    else if |u| == 3 then Extend(Extend(lead, u[1]), u[2])
    else Extend(Extend(Extend(lead, u[1]), u[2]), u[3])
  }

  lemma EncodeIsUnit(c: nat)
    requires c <= MAX_CODE
    ensures IsUnit(Encode(c)) && UnitValue(Encode(c)) == c
  {
    var u := Encode(c);
    if c <= 0x7F {
    } else if c <= 0x7FF {
      assert IsUnit(u) && LeadBits(u[0]) == c / 64;
    } else if c <= 0xFFFF {
      assert IsUnit(u) && LeadBits(u[0]) == c / 64 / 64;
      assert Extend(LeadBits(u[0]), u[1]) == c / 64;
    } else {
      assert IsUnit(u) && LeadBits(u[0]) == c / 64 / 64 / 64;
      assert Extend(LeadBits(u[0]), u[1]) == c / 64 / 64;
      assert Extend(Extend(LeadBits(u[0]), u[1]), u[2]) == c / 64;
    }
  }

  // Encode is the shortest unit with its value, and the only one of that length.
  lemma EncodeShortest(u: bytes)
    requires IsUnit(u)
    ensures UnitValue(u) <= MAX_CODE
    ensures |Encode(UnitValue(u))| <= |u|
    ensures |Encode(UnitValue(u))| == |u| ==> Encode(UnitValue(u)) == u
  {
  }

  // ---- Normal strings ----

  lemma NormalEmpty()
    ensures Normal([])
  {
    assert EncodeAll([]) == [];
  }

  lemma NormalAppend(s: bytes, c: nat)
    requires Normal(s) && IsScalar(c)
    ensures Normal(s + Encode(c))
  {
    var cs :| AllScalars(cs) && EncodeAll(cs) == s;
    assert (cs + [c])[..|cs|] == cs;
    assert AllScalars(cs + [c]);
    assert EncodeAll(cs + [c]) == s + Encode(c);
  }

  lemma {:induction false} EncodeAllConcat(a: seq<nat>, b: seq<nat>)
    ensures EncodeAll(a + b) == EncodeAll(a) + EncodeAll(b)
  {
    hide Encode;
    if |b| == 0 {
      assert a + b == a;
    } else {
      EncodeAllConcat(a, b[..|b| - 1]);
      assert (a + b)[..|a + b| - 1] == a + b[..|b| - 1];
    }
  }

  lemma NormalConcat(a: bytes, b: bytes)
    requires Normal(a) && Normal(b)
    ensures Normal(a + b)
  {
    var x :| AllScalars(x) && EncodeAll(x) == a;
    var y :| AllScalars(y) && EncodeAll(y) == b;
    EncodeAllConcat(x, y);
    assert AllScalars(x + y);
  }

  // ASCII strings are normal.
  lemma {:induction false} NormalAscii(s: bytes)
    requires forall i :: 0 <= i < |s| ==> s[i] < 0x80
    ensures Normal(s)
  {
    if |s| == 0 {
      NormalEmpty();
    } else {
      NormalAscii(s[..|s| - 1]);
      NormalAppend(s[..|s| - 1], s[|s| - 1]);
      assert s == s[..|s| - 1] + Encode(s[|s| - 1]);
    }
  }

  // ---- UTF-8 as section 4 of RFC 3629 gives it ----

  predicate Utf8Char(u: bytes) {
    IsUnit(u)
    && (|u| == 2 ==> 0xC2 <= u[0])
    && (|u| == 3 ==> (u[0] == 0xE0 ==> 0xA0 <= u[1]) && (u[0] == 0xED ==> u[1] <= 0x9F))
    && (|u| == 4 ==> u[0] <= 0xF4 && (u[0] == 0xF0 ==> 0x90 <= u[1]) && (u[0] == 0xF4 ==> u[1] <= 0x8F))
  }

  predicate Utf8Octets(s: bytes)
    decreases |s|
  {
    |s| == 0
    || (TrailCount(s[0]).Some?
        && var n := 1 + TrailCount(s[0]).value;
        n <= |s| && Utf8Char(s[..n]) && Utf8Octets(s[n..]))
  }

  // A UTF-8 character in that sense is the shortest form of a Unicode scalar value.
  lemma Utf8CharIsEncode(u: bytes)
    requires Utf8Char(u)
    ensures IsScalar(UnitValue(u)) && UnitValue(u) <= 0x10_FFFF
    ensures Encode(UnitValue(u)) == u
  {
    EncodeShortest(u);
  }

  // No code point beyond the last one of Unicode.
  predicate AllUnicode(cs: seq<nat>) {
    forall i :: 0 <= i < |cs| ==> cs[i] <= 0x10_FFFF
  }

  lemma EncodeIsUtf8Char(c: nat)
    requires IsScalar(c)
    ensures Utf8Char(Encode(c)) <==> c <= 0x10_FFFF
  {
    EncodeIsUnit(c);
  }

  // Octets cut before a byte that continues nothing are UTF-8 exactly when both parts are.
  lemma {:induction false} Utf8Cut(a: bytes, b: bytes)
    requires |b| > 0 ==> !IsTrail(b[0])
    ensures Utf8Octets(a + b) <==> Utf8Octets(a) && Utf8Octets(b)
    decreases |a|
  {
    var s := a + b;
    if |a| == 0 {
      assert s == b;
    } else if TrailCount(a[0]).Some? {
      var n := 1 + TrailCount(a[0]).value;
      if n <= |a| {
        assert s[..n] == a[..n] && s[n..] == a[n..] + b;
        Utf8Cut(a[n..], b);
      } else if n <= |s| {
        assert s[..n][|a|] == b[0];
      }
    }
  }

  // A single encoding, as octets.
  lemma Utf8Single(c: nat)
    requires IsScalar(c)
    ensures Utf8Octets(Encode(c)) <==> c <= 0x10_FFFF
    ensures |Encode(c)| > 0 && !IsTrail(Encode(c)[0])
  {
    EncodeIsUnit(c);
    EncodeIsUtf8Char(c);
    hide Encode, Utf8Char;
    var u := Encode(c);
    assert u[..|u|] == u && u[|u|..] == [];
  }

  // A string in normal form is UTF-8 exactly when none of its code points lies beyond Unicode.
  lemma {:induction false} EncodedIsUtf8(cs: seq<nat>)
    requires AllScalars(cs)
    ensures Utf8Octets(EncodeAll(cs)) <==> AllUnicode(cs)
    decreases |cs|
  {
    if |cs| > 0 {
      hide Encode, Utf8Octets, IsScalar;
      var front, c := cs[..|cs| - 1], cs[|cs| - 1];
      assert AllUnicode(cs) <==> AllUnicode(front) && c <= 0x10_FFFF by {
        assert forall i :: 0 <= i < |front| ==> cs[i] == front[i];
      }
      assert EncodeAll(cs) == EncodeAll(front) + Encode(c);
      hide AllUnicode, EncodeAll;
      EncodedIsUtf8(front);
      Utf8Single(c);
      Utf8Cut(EncodeAll(front), Encode(c));
    }
  }

  lemma EncodeOne(c: nat)
    ensures EncodeAll([c]) == Encode(c)
  {
    hide Encode;
    assert [c][..0] == [];
  }

  lemma Utf8Prepend(u: bytes, more: seq<nat>) returns (cs: seq<nat>)
    requires Utf8Char(u) && AllScalars(more) && AllUnicode(more)
    ensures AllScalars(cs) && AllUnicode(cs) && EncodeAll(cs) == u + EncodeAll(more)
  {
    cs := [UnitValue(u)] + more;
    Utf8CharIsEncode(u);
    hide Encode, EncodeAll, Utf8Char, UnitValue;
    EncodeOne(UnitValue(u));
    EncodeAllConcat([UnitValue(u)], more);
  }

  lemma {:induction false} Utf8Decodes(s: bytes) returns (cs: seq<nat>)
    requires Utf8Octets(s)
    ensures AllScalars(cs) && AllUnicode(cs) && EncodeAll(cs) == s
    decreases |s|
  {
    hide Encode, Utf8Char, UnitValue;
    if |s| == 0 {
      cs := [];
    } else {
      var n := 1 + TrailCount(s[0]).value;
      assert s == s[..n] + s[n..];
      hide AllScalars, AllUnicode, EncodeAll;
      var more := Utf8Decodes(s[n..]);
      cs := Utf8Prepend(s[..n], more);
    }
  }

  /** The UTF-8 of RFC 3629 is exactly the shortest encodings of Unicode scalar
      values: the normal strings without code points above 10FFFF. */
  lemma Utf8IsEncoding(s: bytes)
    ensures Utf8Octets(s) <==> exists cs :: AllScalars(cs) && AllUnicode(cs) && EncodeAll(cs) == s
  {
    hide Utf8Octets, AllScalars, AllUnicode, EncodeAll;
    if Utf8Octets(s) {
      var cs := Utf8Decodes(s);
      assert AllScalars(cs) && AllUnicode(cs) && EncodeAll(cs) == s;
    }
    if cs :| AllScalars(cs) && AllUnicode(cs) && EncodeAll(cs) == s {
      EncodedIsUtf8(cs);
    }
  }
}
