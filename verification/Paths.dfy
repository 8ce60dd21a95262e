/** Path strings of the flat root file system. */
module Paths {
  import opened Words
  import opened Utf8

  const CSTR_MAX := 256
  const SLASH: byte := 0x2F
  const DOT: byte := 0x2E

  /** Bytes of a White_Space character at the front of s, 0 when there is none. */
  function SpaceAtStart(s: bytes): (n: nat)
    ensures n <= |s|
  {
    if |s| >= 1 && (9 <= s[0] <= 13 || s[0] == 32) then 1
    else if |s| >= 2 && s[0] == 0xC2 && s[1] in {0x85, 0xA0} then 2
    else if |s| >= 3 && IsWideSpace(s[0], s[1], s[2]) then 3
    else 0
  }

  function SpaceAtEnd(s: bytes): (n: nat)
    ensures n <= |s|
  {
    var k := |s|;
    if k >= 1 && (9 <= s[k - 1] <= 13 || s[k - 1] == 32) then 1
    else if k >= 2 && s[k - 2] == 0xC2 && s[k - 1] in {0x85, 0xA0} then 2
    else if k >= 3 && IsWideSpace(s[k - 3], s[k - 2], s[k - 1]) then 3
    else 0
  }

  /** U+1680, U+2000 to U+200A, U+2028, U+2029, U+202F, U+205F and U+3000. */
  predicate IsWideSpace(a: byte, b: byte, c: byte) {
    || (a == 0xE1 && b == 0x9A && c == 0x80)
    || (a == 0xE2 && b == 0x80 && (0x80 <= c <= 0x8A || c in {0xA8, 0xA9, 0xAF}))
    || (a == 0xE2 && b == 0x81 && c == 0x9F)
    || (a == 0xE3 && b == 0x80 && c == 0x80)
  }

  function TrimStart(s: bytes): bytes
    decreases |s|
  {
    if SpaceAtStart(s) == 0 then s else TrimStart(s[SpaceAtStart(s)..])
  }

  function TrimEnd(s: bytes): bytes
    decreases |s|
  {
    if SpaceAtEnd(s) == 0 then s else TrimEnd(s[..|s| - SpaceAtEnd(s)])
  }

  /** `str::trim`. */
  function Trim(s: bytes): bytes {
    TrimEnd(TrimStart(s))
  }

  /** A path without its leading "./". */
  function StripDot(s: bytes): bytes {
    if |s| >= 2 && s[0] == DOT && s[1] == SLASH then s[2..] else s
  }

  function StripSlashes(s: bytes): (r: bytes)
    ensures r == [] || r[0] != SLASH
  {
    if s != [] && s[0] == SLASH then StripSlashes(s[1..]) else s
  }

  /** The file name a path denotes: empty for the root, None for anything below a directory. */
  function NormalizePath(path: bytes): (r: Option<bytes>)
    ensures r.Some? ==> SLASH !in r.value
  {
    var trimmed := Trim(path);
    if trimmed == [] then Some([])
    else
      var p := StripSlashes(StripDot(trimmed));
      if SLASH in p then None else Some(p)
  }

  /** The program name an execve path denotes: like a file name, but never empty. */
  function ExecName(path: bytes): (r: Option<bytes>)
    ensures r == match NormalizePath(path) case None => None case Some(n) => if n == [] then None else Some(n)
  {
    var trimmed := Trim(path);
    if trimmed == [] then None
    else
      var name := StripSlashes(StripDot(trimmed));
      if name == [] || SLASH in name then None else Some(name)
  }

  predicate AllSlashes(s: bytes) {
    forall k :: 0 <= k < |s| ==> s[k] == SLASH
  }

  lemma {:induction false} StripsToNothing(s: bytes)
    ensures StripSlashes(s) == [] <==> AllSlashes(s)
    decreases |s|
  {
    if s != [] && s[0] == SLASH {
      StripsToNothing(s[1..]);
      assert AllSlashes(s) ==> AllSlashes(s[1..]);
      assert forall k :: 1 <= k < |s| ==> s[k] == s[1..][k - 1];
    }
  }

  /** The paths that reduce to the root: nothing but white space around slashes, perhaps after "./". */
  lemma {:induction false} ReducesToRoot(path: bytes)
    ensures NormalizePath(path) == Some([]) <==>
            AllSlashes(StripDot(Trim(path)))
  {
    hide Trim;
    StripsToNothing(StripDot(Trim(path)));
  }

  // ---------------------------------------------------------------- what name a path denotes

  /** The encodings of the White_Space characters of the Unicode Standard. */
  predicate WhiteSpace(w: bytes) {
    w in {[0x09], [0x0A], [0x0B], [0x0C], [0x0D], [0x20], [0xC2, 0x85], [0xC2, 0xA0], [0xE1, 0x9A, 0x80],
          [0xE2, 0x80, 0x80], [0xE2, 0x80, 0x81], [0xE2, 0x80, 0x82], [0xE2, 0x80, 0x83], [0xE2, 0x80, 0x84],
          [0xE2, 0x80, 0x85], [0xE2, 0x80, 0x86], [0xE2, 0x80, 0x87], [0xE2, 0x80, 0x88], [0xE2, 0x80, 0x89],
          [0xE2, 0x80, 0x8A], [0xE2, 0x80, 0xA8], [0xE2, 0x80, 0xA9], [0xE2, 0x80, 0xAF], [0xE2, 0x81, 0x9F],
          [0xE3, 0x80, 0x80]}
  }

  predicate StartsWith(s: bytes, w: bytes) { |w| <= |s| && s[..|w|] == w }
  predicate EndsWith(s: bytes, w: bytes) { |w| <= |s| && s[|s| - |w|..] == w }

  /** No white space begins s; none ends it. */
  ghost predicate BareStart(s: bytes) { forall w :: WhiteSpace(w) ==> !StartsWith(s, w) }
  ghost predicate BareEnd(s: bytes) { forall w :: WhiteSpace(w) ==> !EndsWith(s, w) }

  lemma {:induction false} SpaceStart(s: bytes, w: bytes)
    requires WhiteSpace(w) && StartsWith(s, w)
    ensures SpaceAtStart(s) == |w| > 0
  {
    assert forall k :: 0 <= k < |w| ==> s[k] == w[k];
  }

  lemma {:induction false} SpaceEnd(s: bytes, w: bytes)
    requires WhiteSpace(w) && EndsWith(s, w)
    ensures SpaceAtEnd(s) == |w| > 0
  {
    assert forall k :: 0 <= k < |w| ==> s[|s| - |w| + k] == w[k];
  }

  lemma {:induction false} SpaceStartIs(s: bytes)
    requires SpaceAtStart(s) > 0
    ensures WhiteSpace(s[..SpaceAtStart(s)]) && StartsWith(s, s[..SpaceAtStart(s)])
  {
    var n := SpaceAtStart(s);
    if n == 1 {
      assert s[..n] == [s[0]];
    } else if n == 2 {
      assert s[..n] == [s[0], s[1]];
    } else {
      assert s[..n] == [s[0], s[1], s[2]];
    }
  }

  lemma {:induction false} SpaceEndIs(s: bytes)
    requires SpaceAtEnd(s) > 0
    ensures WhiteSpace(s[|s| - SpaceAtEnd(s)..]) && EndsWith(s, s[|s| - SpaceAtEnd(s)..])
  {
    var n, k := SpaceAtEnd(s), |s|;
    if n == 1 {
      assert s[k - n..] == [s[k - 1]];
    } else if n == 2 {
      assert s[k - n..] == [s[k - 2], s[k - 1]];
    } else {
      assert s[k - n..] == [s[k - 3], s[k - 2], s[k - 1]];
    }
  }

  predicate AllWhite(ws: seq<bytes>) {
    forall k :: 0 <= k < |ws| ==> WhiteSpace(ws[k])
  }

  /** A text of white space only. */
  function Concat(ws: seq<bytes>): bytes {
    if ws == [] then [] else ws[0] + Concat(ws[1..])
  }

  lemma {:induction false} TrimStartOf(ws: seq<bytes>, s: bytes)
    requires AllWhite(ws) && SpaceAtStart(s) == 0
    ensures TrimStart(Concat(ws) + s) == s
    decreases |ws|
  {
    hide WhiteSpace, SpaceAtStart;
    if ws == [] {
      assert Concat(ws) + s == s;
    } else {
      var t := Concat(ws) + s;
      assert t == ws[0] + (Concat(ws[1..]) + s);
      assert StartsWith(t, ws[0]);
      SpaceStart(t, ws[0]);
      assert t[|ws[0]|..] == Concat(ws[1..]) + s;
      TrimStartOf(ws[1..], s);
    }
  }

  lemma {:induction false} ConcatOne(w: bytes)
    ensures Concat([w]) == w && Concat([]) == [] && [] + w == w
  {
    assert [w][1..] == [];
  }

  lemma {:induction false} ConcatHead(ws: seq<bytes>)
    requires ws != []
    ensures Concat(ws) == ws[0] + Concat(ws[1..])
  {
  }

  lemma {:induction false} ConcatSnoc(ws: seq<bytes>)
    requires ws != []
    ensures Concat(ws) == Concat(ws[..|ws| - 1]) + ws[|ws| - 1]
    decreases |ws|
  {
    var n, head := |ws| - 1, ws[..|ws| - 1];
    if n == 0 {
      ConcatOne(ws[0]);
      assert ws == [ws[0]] && head == [];
    } else {
      var mid := ws[1..][..n - 1];
      assert head[1..] == mid && head[0] == ws[0] && ws[1..][n - 1] == ws[n];
      assert Concat(head) == ws[0] + Concat(mid);
      hide Concat;
      ConcatSnoc(ws[1..]);
      Assoc(ws[0], Concat(mid), ws[n]);
      ConcatHead(ws);
    }
  }

  lemma {:induction false} TrimEndOf(s: bytes, ws: seq<bytes>)
    requires AllWhite(ws) && SpaceAtEnd(s) == 0
    ensures TrimEnd(s + Concat(ws)) == s
    decreases |ws|
  {
    hide WhiteSpace, SpaceAtEnd;
    if ws == [] {
      assert s + Concat(ws) == s;
    } else {
      var w, rest := ws[|ws| - 1], ws[..|ws| - 1];
      var t := s + Concat(ws);
      ConcatSnoc(ws);
      assert t == s + Concat(rest) + w;
      assert EndsWith(t, w);
      SpaceEnd(t, w);
      assert t[..|t| - |w|] == s + Concat(rest);
      TrimEndOf(s, rest);
    }
  }

  /** White space after s does not make one with its start. */
  lemma {:induction false} StartStaysBare(s: bytes, ws: seq<bytes>)
    requires AllWhite(ws) && s != [] && SpaceAtStart(s) == 0
    ensures SpaceAtStart(s + Concat(ws)) == 0
  {
    if ws != [] {
      LeadByte(ws[0]);
      assert (s + Concat(ws))[|s|] == ws[0][0];
    }
    hide WhiteSpace, Concat;
  }

  lemma {:induction false} LeadByte(w: bytes)
    requires WhiteSpace(w)
    ensures |w| > 0 && !(0x80 <= w[0] <= 0xBF)
  {
  }

  /** Trimming removes the white space around a text and nothing of the text. */
  lemma {:induction false} TrimMeaning(before: seq<bytes>, s: bytes, after: seq<bytes>)
    requires AllWhite(before) && AllWhite(after) && s != [] && BareStart(s) && BareEnd(s)
    ensures Trim(Concat(before) + s + Concat(after)) == s
  {
    hide WhiteSpace, Concat, TrimStart, TrimEnd;
    if SpaceAtStart(s) > 0 {
      SpaceStartIs(s);
    }
    if SpaceAtEnd(s) > 0 {
      SpaceEndIs(s);
    }
    StartStaysBare(s, after);
    TrimStartOf(before, s + Concat(after));
    assert Concat(before) + (s + Concat(after)) == Concat(before) + s + Concat(after);
    TrimEndOf(s, after);
  }

  lemma {:induction false} TrimOfWhite(ws: seq<bytes>)
    requires AllWhite(ws)
    ensures Trim(Concat(ws)) == []
  {
    TrimStartOf(ws, []);
    assert Concat(ws) + [] == Concat(ws);
  }

  function Slashes(k: nat): (s: bytes)
    ensures |s| == k && AllSlashes(s)
  {
    seq(k, _ => SLASH)
  }

  /** "./" or nothing, and k slashes. */
  function Prefix(dot: bool, k: nat): bytes {
    (if dot then [0x2E, 0x2F] else []) + Slashes(k)
  }

  lemma {:induction false} StripSlashesOf(k: nat, s: bytes)
    requires s == [] || s[0] != SLASH
    ensures StripSlashes(Slashes(k) + s) == s
    decreases k
  {
    if k == 0 {
      assert Slashes(0) + s == s;
    } else {
      assert (Slashes(k) + s)[1..] == Slashes(k - 1) + s;
      StripSlashesOf(k - 1, s);
    }
  }

  /** rest is left of Prefix(dot, k) + rest: it does not go on with a slash or look like a leading "./". */
  predicate Left(dot: bool, k: nat, rest: bytes) {
    && (rest == [] || rest[0] != 0x2F)
    && (!dot && k == 0 ==> !(|rest| >= 2 && rest[0] == 0x2E && rest[1] == 0x2F))
  }

  lemma {:induction false} StripsPrefix(dot: bool, k: nat, rest: bytes)
    requires Left(dot, k, rest)
    ensures StripSlashes(StripDot(Prefix(dot, k) + rest)) == rest
  {
    var t := Prefix(dot, k) + rest;
    if dot {
      assert t[2..] == Slashes(k) + rest;
    } else {
      assert t == Slashes(k) + rest;
      assert k > 0 ==> t[0] == SLASH;
    }
    StripSlashesOf(k, rest);
  }

  /** With white space around it, an optional "./" and any number of slashes before it, what is left of a path
      is its name, and there is none if a slash is left in it. */
  lemma {:induction false} NameMeaning(before: seq<bytes>, dot: bool, k: nat, rest: bytes, after: seq<bytes>)
    requires AllWhite(before) && AllWhite(after) && Left(dot, k, rest)
    requires BareStart(Prefix(dot, k) + rest) && BareEnd(Prefix(dot, k) + rest) && Prefix(dot, k) + rest != []
    ensures NormalizePath(Concat(before) + (Prefix(dot, k) + rest) + Concat(after)) ==
            if 0x2F in rest then None else Some(rest)
  {
    hide Trim, Concat, AllWhite, BareStart, BareEnd, Prefix;
    TrimMeaning(before, Prefix(dot, k) + rest, after);
    StripsPrefix(dot, k, rest);
  }

  lemma {:induction false} Assoc(a: bytes, b: bytes, c: bytes)
    ensures a + (b + c) == (a + b) + c
  {
  }

  lemma {:induction false} Halves(s: bytes, n: nat)
    requires n <= |s|
    ensures s == s[..n] + s[n..]
  {
  }

  lemma {:induction false} WhiteCons(w: bytes, ws: seq<bytes>)
    requires WhiteSpace(w) && AllWhite(ws)
    ensures AllWhite([w] + ws) && Concat([w] + ws) == w + Concat(ws)
  {
    assert ([w] + ws)[1..] == ws;
    hide WhiteSpace;
  }

  lemma {:induction false} WhiteSnoc(ws: seq<bytes>, w: bytes)
    requires WhiteSpace(w) && AllWhite(ws)
    ensures AllWhite(ws + [w]) && Concat(ws + [w]) == Concat(ws) + w
  {
    hide WhiteSpace;
    ConcatSnoc(ws + [w]);
    assert (ws + [w])[..|ws|] == ws;
  }

  lemma {:induction false} NoWhite(s: bytes)
    ensures AllWhite([]) && Concat([]) + s == s && s + Concat([]) == s
  {
  }

  lemma {:induction false} TrimStartSplits(s: bytes) returns (ws: seq<bytes>)
    ensures AllWhite(ws) && s == Concat(ws) + TrimStart(s) && SpaceAtStart(TrimStart(s)) == 0
    decreases |s|
  {
    var n := SpaceAtStart(s);
    hide WhiteSpace, SpaceAtStart, AllWhite, Concat;
    if n == 0 {
      ws := [];
      NoWhite(s);
    } else {
      SpaceStartIs(s);
      var rest := TrimStartSplits(s[n..]);
      ws := [s[..n]] + rest;
      WhiteCons(s[..n], rest);
      Halves(s, n);
      Assoc(s[..n], Concat(rest), TrimStart(s));
    }
  }

  lemma {:induction false} TrimEndSplits(s: bytes) returns (ws: seq<bytes>)
    ensures AllWhite(ws) && s == TrimEnd(s) + Concat(ws) && SpaceAtEnd(TrimEnd(s)) == 0
    decreases |s|
  {
    var n := SpaceAtEnd(s);
    hide WhiteSpace, SpaceAtEnd, AllWhite, Concat;
    if n == 0 {
      ws := [];
      NoWhite(s);
    } else {
      SpaceEndIs(s);
      var rest := TrimEndSplits(s[..|s| - n]);
      ws := rest + [s[|s| - n..]];
      WhiteSnoc(rest, s[|s| - n..]);
      Halves(s, |s| - n);
      Assoc(TrimEnd(s), Concat(rest), s[|s| - n..]);
    }
  }

  lemma {:induction false} BareByCount(s: bytes)
    ensures SpaceAtStart(s) == 0 ==> BareStart(s)
    ensures SpaceAtEnd(s) == 0 ==> BareEnd(s)
  {
    hide WhiteSpace, SpaceAtStart, SpaceAtEnd;
    forall w | WhiteSpace(w) && StartsWith(s, w) ensures SpaceAtStart(s) > 0 {
      SpaceStart(s, w);
    }
    forall w | WhiteSpace(w) && EndsWith(s, w) ensures SpaceAtEnd(s) > 0 {
      SpaceEnd(s, w);
    }
  }

  lemma {:induction false} StartsLonger(s: bytes, t: bytes, w: bytes)
    ensures StartsWith(s, w) ==> StartsWith(s + t, w)
  {
  }

  lemma {:induction false} StartOfShorter(s: bytes, t: bytes)
    requires BareStart(s + t)
    ensures BareStart(s)
  {
    hide WhiteSpace;
    forall w | WhiteSpace(w) ensures StartsWith(s, w) ==> StartsWith(s + t, w) {
      StartsLonger(s, t, w);
    }
  }

  lemma {:induction false} SlashesSplit(s: bytes) returns (k: nat)
    ensures k <= |s| && s == Slashes(k) + StripSlashes(s)
    decreases |s|
  {
    if s != [] && s[0] == SLASH {
      k := SlashesSplit(s[1..]);
      k := k + 1;
      assert s == [s[0]] + s[1..];
      assert Slashes(k) == [SLASH] + Slashes(k - 1);
    } else {
      k := 0;
    }
  }

  /** Every path that is not white space alone has that form, so NameMeaning speaks of all of them. */
  lemma {:induction false} PathSplits(path: bytes)
    returns (before: seq<bytes>, dot: bool, k: nat, rest: bytes, after: seq<bytes>)
    requires Trim(path) != []
    ensures AllWhite(before) && AllWhite(after) && Left(dot, k, rest)
    ensures BareStart(Prefix(dot, k) + rest) && BareEnd(Prefix(dot, k) + rest) && Prefix(dot, k) + rest != []
    ensures path == Concat(before) + (Prefix(dot, k) + rest) + Concat(after)
  {
    hide WhiteSpace, TrimStart, TrimEnd, SpaceAtStart, SpaceAtEnd, Concat, BareStart, BareEnd, AllWhite;
    before := TrimStartSplits(path);
    var t := TrimStart(path);
    after := TrimEndSplits(t);
    var mid := TrimEnd(t);
    BareByCount(t);
    BareByCount(mid);
    StartOfShorter(mid, Concat(after));
    assert path == Concat(before) + mid + Concat(after);
    dot, k, rest := PrefixSplits(mid);
  }

  lemma {:induction false} DotSplits(t: bytes)
    ensures t == (if |t| >= 2 && t[0] == DOT && t[1] == SLASH then [0x2E, 0x2F] else []) + StripDot(t)
  {
  }

  lemma {:induction false} LeftAfter(t: bytes, k: nat)
    requires StripDot(t) == Slashes(k) + StripSlashes(StripDot(t))
    ensures Left(|t| >= 2 && t[0] == DOT && t[1] == SLASH, k, StripSlashes(StripDot(t)))
  {
    if k == 0 {
      assert Slashes(0) + StripSlashes(StripDot(t)) == StripSlashes(StripDot(t));
    }
  }

  lemma {:induction false} PrefixSplits(t: bytes) returns (dot: bool, k: nat, rest: bytes)
    ensures t == Prefix(dot, k) + rest && Left(dot, k, rest)
  {
    dot := |t| >= 2 && t[0] == DOT && t[1] == SLASH;
    k := SlashesSplit(StripDot(t));
    rest := StripSlashes(StripDot(t));
    var d: bytes := if dot then [0x2E, 0x2F] else [];
    DotSplits(t);
    LeftAfter(t, k);
    hide StripSlashes, StripDot, Slashes;
    Assoc(d, Slashes(k), rest);
  }

  /** White space alone denotes the root. */
  lemma {:induction false} WhiteMeaning(ws: seq<bytes>)
    requires AllWhite(ws)
    ensures NormalizePath(Concat(ws)) == Some([])
  {
    TrimOfWhite(ws);
  }

  lemma {:induction false} BarePlain(s: bytes)
    requires |s| > 0 && 0x21 <= s[0] <= 0x7E && 0x21 <= s[|s| - 1] <= 0x7E
    ensures BareStart(s) && BareEnd(s)
  {
    forall w | WhiteSpace(w) ensures !StartsWith(s, w) && !EndsWith(s, w) {
      LastByte(w);
    }
  }

  lemma {:induction false} LastByte(w: bytes)
    requires WhiteSpace(w)
    ensures |w| > 0 && !(0x21 <= w[0] <= 0x7E) && !(0x21 <= w[|w| - 1] <= 0x7E)
  {
  }

  /** For plain names: itself, after one slash or several, and after "./". */
  lemma {:induction false} PlainNameMeaning(name: bytes, k: nat)
    requires |name| > 0 && 0x21 <= name[0] <= 0x7E && 0x21 <= name[|name| - 1] <= 0x7E && 0x2F !in name
    ensures NormalizePath(name) == Some(name)
    ensures NormalizePath([0x2F] + name) == Some(name)
    ensures NormalizePath(Slashes(k) + name) == Some(name)
    ensures NormalizePath([0x2E, 0x2F] + name) == Some(name)
  {
    hide *;
    PlainCase(false, 0, name);
    PlainCase(false, 1, name);
    PlainCase(false, k, name);
    PlainCase(true, 0, name);
    PrefixForms(k, name);
  }

  lemma {:induction false} PrefixForms(k: nat, name: bytes)
    ensures Prefix(false, 0) + name == name && Prefix(false, 1) + name == [0x2F] + name
    ensures Prefix(false, k) + name == Slashes(k) + name && Prefix(true, 0) + name == [0x2E, 0x2F] + name
  {
  }

  lemma {:induction false} PlainCase(dot: bool, k: nat, name: bytes)
    requires |name| > 0 && 0x21 <= name[0] <= 0x7E && 0x21 <= name[|name| - 1] <= 0x7E && 0x2F !in name
    ensures NormalizePath(Prefix(dot, k) + name) == Some(name)
  {
    BarePlain(Prefix(dot, k) + name);
    NameMeaning([], dot, k, name, []);
    assert Concat([]) + (Prefix(dot, k) + name) + Concat([]) == Prefix(dot, k) + name;
  }

  /** The length of the string before the first NUL, if there is one among the first limit bytes. */
  function NulAt(mem: bytes, i: nat, limit: nat): (n: Option<nat>)
    ensures n.Some? ==> i <= n.value < limit && n.value < |mem| && mem[n.value] == 0
    decreases limit - i
  {
    if i >= limit || i >= |mem| then None
    else if mem[i] == 0 then Some(i)
    else NulAt(mem, i + 1, limit)
  }

  /** `read_cstr` over the memory mem at the pointer. */
  function ReadCstr(mem: bytes): Option<str> {
    match NulAt(mem, 0, CSTR_MAX)
    case None => None
    case Some(n) => if Valid(mem[..n]) then Some(mem[..n]) else None
  }

  lemma {:induction false} NulAtFinds(mem: bytes, i: nat, n: nat)
    requires i <= n < |mem| && n < CSTR_MAX && mem[n] == 0 && forall k :: i <= k < n ==> mem[k] != 0
    ensures NulAt(mem, i, CSTR_MAX) == Some(n)
    decreases n - i
  {
    if i < n {
      NulAtFinds(mem, i + 1, n);
    }
  }

  lemma {:induction false} NulAtFirst(mem: bytes, i: nat)
    requires i <= CSTR_MAX
    ensures match NulAt(mem, i, CSTR_MAX)
            case Some(n) => mem[n] == 0 && forall k :: i <= k < n ==> mem[k] != 0
            case None => forall k :: i <= k < CSTR_MAX && k < |mem| ==> mem[k] != 0
    decreases CSTR_MAX - i
  {
    if i < CSTR_MAX && i < |mem| && mem[i] != 0 {
      NulAtFirst(mem, i + 1);
    }
  }

  /** A path is read exactly when memory holds it with its NUL, and it is NUL-free UTF-8 of at most 255 bytes. */
  lemma {:induction false} ReadCstrMeaning(mem: bytes, p: bytes)
    ensures (ReadCstr(mem).Some? && ReadCstr(mem).value == p) <==>
            && |p| < 256 && |p| < |mem| && mem[..|p|] == p && mem[|p|] == 0
            && Valid(p) && forall k :: 0 <= k < |p| ==> p[k] != 0
  {
    hide Valid;
    NulAtFirst(mem, 0);
    if |p| < 256 && |p| < |mem| && mem[..|p|] == p && mem[|p|] == 0 && (forall k :: 0 <= k < |p| ==> p[k] != 0) {
      assert forall k :: 0 <= k < |p| ==> mem[k] == p[k];
      NulAtFinds(mem, 0, |p|);
    }
  }

  /** A pointer `read_cstr` may follow: it finds a NUL or 256 bytes before leaving mapped memory. */
  predicate Followable(mem: bytes) {
    |mem| >= CSTR_MAX || 0 in mem
  }

  /** The paths that name the root directory outright. */
  predicate IsRootName(path: bytes) {
    path == [] || path == [DOT] || path == [SLASH]
  }
}
