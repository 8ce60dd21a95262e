/** Well-formed UTF-8, as `core::str::from_utf8` accepts it (table 3-7 of the Unicode Standard). */
module Utf8 {
  import opened Words

  predicate Tail(b: byte) {
    0x80 <= b <= 0xBF
  }

  /** The length of the character that s starts with, or 0 when it starts with none. */
  function CharLen(s: bytes): (n: nat)
    ensures n <= |s| && n <= 4
  {
    if |s| >= 1 && s[0] < 0x80 then 1
    else if |s| >= 2 && 0xC2 <= s[0] <= 0xDF && Tail(s[1]) then 2
    else if |s| >= 3 && 0xE0 <= s[0] <= 0xEF && Tail(s[1]) && Tail(s[2])
            && (s[0] == 0xE0 ==> 0xA0 <= s[1]) && (s[0] == 0xED ==> s[1] <= 0x9F) then 3
    else if |s| >= 4 && 0xF0 <= s[0] <= 0xF4 && Tail(s[1]) && Tail(s[2]) && Tail(s[3])
            && (s[0] == 0xF0 ==> 0x90 <= s[1]) && (s[0] == 0xF4 ==> s[1] <= 0x8F) then 4
    else 0
  }

  predicate Valid(s: bytes) {
    s == [] || (CharLen(s) > 0 && Valid(s[CharLen(s)..]))
  }

  type str = s: bytes | Valid(s) witness []

  lemma {:induction false} AsciiIsValid(s: bytes)
    requires forall k :: 0 <= k < |s| ==> s[k] < 0x80
    ensures Valid(s)
  {
    if s != [] {
      AsciiIsValid(s[1..]);
      assert CharLen(s) == 1;
    }
  }

  // ---------------------------------------------------------------- the encoding itself

  /** The Unicode scalar values. */
  predicate Scalar(c: int) {
    0 <= c < 0xD800 || 0xE000 <= c <= 0x10FFFF
  }

  function Encode(c: int): (b: bytes)
    requires Scalar(c)
    ensures 1 <= |b| <= 4
  {
    if c < 0x80 then [c]
    else if c < 0x800 then [0xC0 + c / 0x40, 0x80 + c % 0x40]
    else if c < 0x1_0000 then [0xE0 + c / 0x1000, 0x80 + c / 0x40 % 0x40, 0x80 + c % 0x40]
    else [0xF0 + c / 0x4_0000, 0x80 + c / 0x1000 % 0x40, 0x80 + c / 0x40 % 0x40, 0x80 + c % 0x40]
  }

  type text = cs: seq<int> | forall k :: 0 <= k < |cs| ==> Scalar(cs[k])

  function EncodeText(cs: text): bytes {
    if cs == [] then [] else Encode(cs[0]) + EncodeText(cs[1..])
  }

  lemma {:induction false} EncodedChar(c: int, rest: bytes)
    requires Scalar(c)
    ensures CharLen(Encode(c) + rest) == |Encode(c)|
  {
    var s := Encode(c) + rest;
    assert forall k :: 0 <= k < |Encode(c)| ==> s[k] == Encode(c)[k];
  }

  lemma {:induction false} SixBits(q: int, r: int)
    requires 0 <= q && 0 <= r < 0x40
    ensures (q * 0x40 + r) / 0x40 == q && (q * 0x40 + r) % 0x40 == r
  {
  }

  lemma {:induction false} DecodedTwo(x: int, y: int) returns (c: int)
    requires 0xC2 <= x <= 0xDF && 0x80 <= y <= 0xBF
    ensures Scalar(c) && Encode(c) == [x, y]
  {
    c := (x - 0xC0) * 0x40 + (y - 0x80);
    SixBits(x - 0xC0, y - 0x80);
  }

  lemma {:induction false} DecodedThree(x: int, y: int, z: int) returns (c: int)
    requires 0xE0 <= x <= 0xEF && 0x80 <= y <= 0xBF && 0x80 <= z <= 0xBF
    requires (x == 0xE0 ==> 0xA0 <= y) && (x == 0xED ==> y <= 0x9F)
    ensures Scalar(c) && Encode(c) == [x, y, z]
  {
    var h := (x - 0xE0) * 0x40 + (y - 0x80);
    c := h * 0x40 + (z - 0x80);
    SixBits(x - 0xE0, y - 0x80);
    SixBits(h, z - 0x80);
    assert c / 0x1000 == h / 0x40;
  }

  lemma {:induction false} DecodedFour(w: int, x: int, y: int, z: int) returns (c: int)
    requires 0xF0 <= w <= 0xF4 && 0x80 <= x <= 0xBF && 0x80 <= y <= 0xBF && 0x80 <= z <= 0xBF
    requires (w == 0xF0 ==> 0x90 <= x) && (w == 0xF4 ==> x <= 0x8F)
    ensures Scalar(c) && Encode(c) == [w, x, y, z]
  {
    var g := (w - 0xF0) * 0x40 + (x - 0x80);
    var h := g * 0x40 + (y - 0x80);
    c := h * 0x40 + (z - 0x80);
    SixBits(w - 0xF0, x - 0x80);
    SixBits(g, y - 0x80);
    SixBits(h, z - 0x80);
    assert c / 0x1000 == h / 0x40 && c / 0x4_0000 == g / 0x40;
  }

  lemma {:induction false} DecodedChar(s: bytes) returns (c: int)
    requires CharLen(s) > 0
    ensures Scalar(c) && Encode(c) == s[..CharLen(s)]
  {
    var n := CharLen(s);
    if n == 1 {
      c := s[0];
    } else if n == 2 {
      c := DecodedTwo(s[0], s[1]);
    } else if n == 3 {
      c := DecodedThree(s[0], s[1], s[2]);
    } else {
      c := DecodedFour(s[0], s[1], s[2], s[3]);
    }
    hide Encode;
  }

  lemma {:induction false} EncodedIsValid(cs: text)
    ensures Valid(EncodeText(cs))
  {
    hide CharLen, Encode;
    if cs != [] {
      var rest := EncodeText(cs[1..]);
      EncodedIsValid(cs[1..]);
      EncodedChar(cs[0], rest);
      assert (Encode(cs[0]) + rest)[|Encode(cs[0])|..] == rest;
    }
  }

  lemma {:induction false} ValidIsEncoded(s: bytes) returns (cs: text)
    requires Valid(s)
    ensures EncodeText(cs) == s
    decreases |s|
  {
    hide CharLen, Encode;
    if s == [] {
      cs := [];
    } else {
      var c := DecodedChar(s);
      var rest := ValidIsEncoded(s[CharLen(s)..]);
      cs := [c] + rest;
      assert cs[1..] == rest;
      assert s == s[..CharLen(s)] + s[CharLen(s)..];
    }
  }

  /** The accepted byte strings are exactly the encodings of sequences of scalar values. */
  lemma {:induction false} ValidExactly(s: bytes)
    ensures Valid(s) <==> exists cs: text :: EncodeText(cs) == s
  {
    if Valid(s) {
      var cs := ValidIsEncoded(s);
      assert EncodeText(cs) == s;
    }
    if cs: text :| EncodeText(cs) == s {
      EncodedIsValid(cs);
    }
  }
}
