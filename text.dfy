/**
 * The handful of Python string and path operations the uploader relies on:
 * `str.strip`, `str.rfind`, `str.split(c)[-1]`, `str.replace`, `PurePath.name`,
 * `PurePath.stem` and the decimal rendering of an `int`.
 */
module Text {

  /** The characters Python's `str.isspace()` accepts, which `str.strip()` removes. */
  predicate IsWhitespace(c: char)
  {
    || '\t' <= c <= '\r'
    || '\U{001C}' <= c <= ' '
    || c == '\U{0085}' || c == '\U{00A0}' || c == '\U{1680}'
    || '\U{2000}' <= c <= '\U{200A}'
    || c == '\U{2028}' || c == '\U{2029}' || c == '\U{202F}' || c == '\U{205F}' || c == '\U{3000}'
  }

  // ---------------------------------------------------------------- strip

  /** `s.lstrip(chars)`: drops the longest prefix of characters that `drop` holds for. */
  function TrimLeft(s: string, drop: char -> bool): string
    decreases |s|
  {
    if s != [] && drop(s[0]) then TrimLeft(s[1..], drop) else s
  }

  /**
   * `TrimLeft` keeps a suffix of `s`, everything it dropped is a dropped
   * character, and what it keeps does not start with one.
   */
  lemma {:induction false} TrimLeftShape(s: string, drop: char -> bool)
    ensures var r := TrimLeft(s, drop);
      && |r| <= |s| && r == s[|s| - |r|..]
      && (forall k :: 0 <= k < |s| - |r| ==> drop(s[k]))
      && (r == [] || !drop(r[0]))
    decreases |s|
  {
    if s != [] && drop(s[0]) {
      TrimLeftShape(s[1..], drop);
    }
  }

  /** `s.rstrip(chars)`: drops the longest suffix of characters that `drop` holds for. */
  function TrimRight(s: string, drop: char -> bool): string
    decreases |s|
  {
    if s != [] && drop(s[|s| - 1]) then TrimRight(s[..|s| - 1], drop) else s
  }

  /**
   * `TrimRight` keeps a prefix of `s`, everything it dropped is a dropped
   * character, and what it keeps does not end with one.
   */
  lemma {:induction false} TrimRightShape(s: string, drop: char -> bool)
    ensures var r := TrimRight(s, drop);
      && |r| <= |s| && r == s[..|r|]
      && (forall k :: |r| <= k < |s| ==> drop(s[k]))
      && (r == [] || !drop(r[|r| - 1]))
    decreases |s|
  {
    if s != [] && drop(s[|s| - 1]) {
      TrimRightShape(s[..|s| - 1], drop);
    }
  }

  /** `r` is the slice `s[i..i + |r|]` and `drop` holds for everything of `s` around it. */
  ghost predicate TrimsTo(s: string, drop: char -> bool, r: string, i: nat)
  {
    && i + |r| <= |s|
    && r == s[i..i + |r|]
    && (forall k :: 0 <= k < i ==> drop(s[k]))
    && (forall k :: i + |r| <= k < |s| ==> drop(s[k]))
  }

  /** `s.strip(chars)`: `s` less its leading and trailing characters that `drop` holds for. */
  function StripChars(s: string, drop: char -> bool): string
  {
    TrimRight(TrimLeft(s, drop), drop)
  }

  /**
   * Together the two ensures pin the strip down: it is a slice of `s` framed
   * by dropped characters, and it neither starts nor ends with one.
   */
  lemma StripCharsShape(s: string, drop: char -> bool)
    ensures var r := StripChars(s, drop);
      r == [] || (!drop(r[0]) && !drop(r[|r| - 1]))
    ensures exists i: nat :: TrimsTo(s, drop, StripChars(s, drop), i)
  {
    var left := TrimLeft(s, drop);
    var r := TrimRight(left, drop);
    TrimLeftShape(s, drop);
    TrimRightShape(left, drop);
    if r != [] {
      assert r[0] == left[0];
    }
    assert TrimsTo(s, drop, r, |s| - |left|);
  }

  /** `s.strip()` with no argument. */
  function Strip(s: string): string
  {
    StripChars(s, IsWhitespace)
  }

  /** A field that `Strip` leaves as it is. */
  predicate Stripped(s: string)
  {
    Strip(s) == s
  }

  /** Stripping introduces no character that was not there. */
  lemma StripCharsWithin(s: string, drop: char -> bool, c: char)
    requires c !in s
    ensures c !in StripChars(s, drop)
  {
    var l := TrimLeft(s, drop);
    var r := TrimRight(l, drop);
    TrimLeftShape(s, drop);
    TrimRightShape(l, drop);
    assert StripChars(s, drop) == r;
    forall k | 0 <= k < |r| ensures r[k] != c {
      assert r[k] == l[k] == s[|s| - |l| + k];
    }
  }

  /** A string ending in one dropped character, and otherwise its own strip, strips to what precedes it. */
  lemma StripCharsTrailing(m: string, x: char, drop: char -> bool)
    requires drop(x)
    requires m != [] && !drop(m[0]) && !drop(m[|m| - 1])
    ensures StripChars(m + [x], drop) == m
  {
    var t := m + [x];
    assert t[0] == m[0];
    assert TrimLeft(t, drop) == t;
    assert t[..|t| - 1] == m;
    assert TrimRight(m, drop) == m;
    assert TrimRight(t, drop) == m;
  }

  /** A string that neither starts nor ends with a dropped character is its own strip. */
  lemma StripCharsUnchanged(s: string, drop: char -> bool)
    requires s == [] || (!drop(s[0]) && !drop(s[|s| - 1]))
    ensures StripChars(s, drop) == s
  {
    assert TrimLeft(s, drop) == s;
  }

  /** Stripping twice is stripping once. */
  lemma StripCharsIdempotent(s: string, drop: char -> bool)
    ensures StripChars(StripChars(s, drop), drop) == StripChars(s, drop)
  {
    StripCharsShape(s, drop);
    StripCharsUnchanged(StripChars(s, drop), drop);
  }

  /** What `Strip` returns is left alone by a second strip. */
  lemma StripStripped(s: string)
    ensures Stripped(Strip(s))
  {
    StripCharsIdempotent(s, IsWhitespace);
  }

  // ---------------------------------------------------------------- rfind and split

  /** `s.rfind(c)`: the index of the last `c` in `s`, or -1 when there is none. */
  function RFind(s: string, c: char): (r: int)
    ensures -1 <= r < |s|
    ensures r >= 0 ==> s[r] == c
    decreases |s|
  {
    if s == [] then -1
    else if s[|s| - 1] == c then |s| - 1
    else RFind(s[..|s| - 1], c)
  }

  /** No `c` comes after the index `RFind` returns. */
  lemma {:induction false} RFindIsLast(s: string, c: char)
    ensures forall k :: RFind(s, c) < k < |s| ==> s[k] != c
    decreases |s|
  {
    if s != [] && s[|s| - 1] != c {
      var init := s[..|s| - 1];
      RFindIsLast(init, c);
      assert forall k :: 0 <= k < |init| ==> init[k] == s[k];
    }
  }

  /**
   * `s.split(c)[-1]`: the part of `s` after its last `c`, or all of `s` when
   * `c` does not occur. The result is a suffix of `s` without `c` that is
   * either all of `s` or preceded by a `c`.
   */
  function AfterLast(s: string, c: char): (r: string)
    ensures |r| <= |s| && r == s[|s| - |r|..]
    ensures |r| < |s| ==> s[|s| - |r| - 1] == c
  {
    s[RFind(s, c) + 1..]
  }

  /** What `AfterLast` keeps holds no `c`. */
  lemma AfterLastFree(s: string, c: char)
    ensures c !in AfterLast(s, c)
  {
    RFindIsLast(s, c);
    var r := AfterLast(s, c);
    assert forall k :: 0 <= k < |r| ==> r[k] == s[RFind(s, c) + 1 + k];
  }

  /** An index holding `c` with no `c` after it is what `RFind` returns. */
  lemma RFindUnique(s: string, c: char, i: nat)
    requires i < |s| && s[i] == c
    requires forall k :: i < k < |s| ==> s[k] != c
    ensures RFind(s, c) == i
  {
  }

  /** In `a + [c] + b`, nothing after the `c` between them is a `c` when `b` has none. */
  lemma NoneAfter(a: string, c: char, b: string)
    requires c !in b
    ensures forall k :: |a| < k < |a + [c] + b| ==> (a + [c] + b)[k] != c
  {
    var s := a + [c] + b;
    forall k | |a| < k < |s| ensures s[k] != c {
      assert s[k] == b[k - |a| - 1];
    }
  }

  /** The last `c` of `a + [c] + b` is the one between them when `b` has none. */
  lemma RFindAfter(a: string, c: char, b: string)
    requires c !in b
    ensures RFind(a + [c] + b, c) == |a|
  {
    var s := a + [c] + b;
    NoneAfter(a, c, b);
    assert s[|a|] == c;
    RFindUnique(s, c, |a|);
  }

  /** Without any `c`, `RFind` finds none. */
  lemma {:induction false} RFindAbsent(s: string, c: char)
    requires c !in s
    ensures RFind(s, c) == -1
    decreases |s|
  {
    if s != [] {
      assert s[|s| - 1] != c;
      assert c !in s[..|s| - 1];
      RFindAbsent(s[..|s| - 1], c);
    }
  }

  /** Whatever precedes the last separator is dropped by `AfterLast`. */
  lemma AfterLastConcat(a: string, c: char, b: string)
    requires c !in b
    ensures AfterLast(a + [c] + b, c) == b
  {
    RFindAfter(a, c, b);
    assert (a + [c] + b)[|a| + 1..] == b;
  }

  // ---------------------------------------------------------------- replace

  /** `tok` occurs in `s` at index `i`. */
  predicate OccursAt(s: string, tok: string, i: nat)
  {
    i + |tok| <= |s| && s[i..i + |tok|] == tok
  }

  /** `tok` occurs nowhere in `s`. */
  predicate TokenFree(s: string, tok: string)
  {
    forall i: nat :: i <= |s| ==> !OccursAt(s, tok, i)
  }

  /** No proper prefix of `tok` is also a suffix of it, so two occurrences never overlap. */
  predicate BorderFree(tok: string)
  {
    forall k :: 0 < k < |tok| ==> tok[k..] != tok[..|tok| - k]
  }

  /** `sep.join(parts)`. */
  function Join(parts: seq<string>, sep: string): string
    decreases |parts|
  {
    if parts == [] then []
    else if |parts| == 1 then parts[0]
    else parts[0] + sep + Join(parts[1..], sep)
  }

  /**
   * `s.replace(tok, rep)`: scanning from the left, every occurrence of `tok`
   * that does not overlap an earlier replaced one becomes `rep`.
   */
  function Replace(s: string, tok: string, rep: string): string
    requires tok != []
    decreases |s|
  {
    if |s| < |tok| then s
    else if tok <= s then rep + Replace(s[|tok|..], tok, rep)
    else [s[0]] + Replace(s[1..], tok, rep)
  }

  /** Dropping the first character keeps a string token-free. */
  lemma TokenFreeTail(s: string, tok: string)
    requires s != [] && TokenFree(s, tok)
    ensures TokenFree(s[1..], tok)
  {
    forall i: nat | i <= |s[1..]| ensures !OccursAt(s[1..], tok, i) {
      assert !OccursAt(s, tok, i + 1);
      if i + |tok| <= |s[1..]| {
        assert s[1..][i..i + |tok|] == s[i + 1..i + 1 + |tok|];
      }
    }
  }

  /** A string without the token comes out of `Replace` verbatim. */
  lemma {:induction false} ReplaceTokenFree(s: string, tok: string, rep: string)
    requires tok != [] && TokenFree(s, tok)
    ensures Replace(s, tok, rep) == s
    decreases |s|
  {
    if |s| >= |tok| {
      assert !OccursAt(s, tok, 0);
      assert s[..|tok|] == s[0..0 + |tok|];
      TokenFreeTail(s, tok);
      ReplaceTokenFree(s[1..], tok, rep);
      assert s == [s[0]] + s[1..];
    }
  }

  /** A non-empty token-free prefix followed by a border-free token does not start with the token. */
  lemma NoTokenAtStart(p: string, tok: string, b: string)
    requires p != [] && BorderFree(tok) && TokenFree(p, tok)
    ensures |p + tok + b| >= |tok|
    ensures (p + tok + b)[..|tok|] != tok
  {
    var s := p + tok + b;
    if |p| >= |tok| {
      assert !OccursAt(p, tok, 0);
      assert s[..|tok|] == p[0..0 + |tok|];
    } else {
      var k := |p|;
      assert tok[k..] != tok[..|tok| - k];
    }
  }

  /** The token is matched at the first place it occurs, right after a token-free prefix. */
  lemma {:induction false} ReplaceAfterTokenFree(p: string, tok: string, rep: string, b: string)
    requires tok != [] && BorderFree(tok) && TokenFree(p, tok)
    ensures Replace(p + tok + b, tok, rep) == p + rep + Replace(b, tok, rep)
    decreases |p|
  {
    var s := p + tok + b;
    if p == [] {
      assert s == tok + b;
      assert s[..|tok|] == tok && s[|tok|..] == b;
    } else {
      NoTokenAtStart(p, tok, b);
      TokenFreeTail(p, tok);
      ReplaceAfterTokenFree(p[1..], tok, rep, b);
      assert s[1..] == p[1..] + tok + b;
      calc {
        Replace(s, tok, rep);
        [s[0]] + Replace(s[1..], tok, rep);
        [p[0]] + (p[1..] + rep + Replace(b, tok, rep));
        { assert p == [p[0]] + p[1..]; }
        p + rep + Replace(b, tok, rep);
      }
    }
  }

  /**
   * Replacing a border-free token in a string assembled from token-free
   * pieces swaps every separator for `rep` and keeps every piece as it is:
   * `sep.join(parts).replace(sep, rep) == rep.join(parts)`.
   */
  lemma {:induction false} ReplaceJoin(parts: seq<string>, tok: string, rep: string)
    requires tok != [] && BorderFree(tok)
    requires forall i :: 0 <= i < |parts| ==> TokenFree(parts[i], tok)
    ensures Replace(Join(parts, tok), tok, rep) == Join(parts, rep)
    decreases |parts|
  {
    if parts == [] {
    } else if |parts| == 1 {
      ReplaceTokenFree(parts[0], tok, rep);
    } else {
      ReplaceAfterTokenFree(parts[0], tok, rep, Join(parts[1..], tok));
      ReplaceJoin(parts[1..], tok, rep);
    }
  }

  // ---------------------------------------------------------------- paths

  /** `PurePath(path).name` for a POSIX path: the part after the last '/'. */
  function Name(path: string): string
  {
    AfterLast(path, '/')
  }

  /**
   * `PurePath(path).stem`: the name without its last suffix. A dot that
   * starts or ends the name does not begin a suffix.
   */
  function Stem(path: string): string
  {
    var name := Name(path);
    var i := RFind(name, '.');
    if 0 < i < |name| - 1 then name[..i] else name
  }

  /** The stem is a prefix of the name, and what it drops starts with the name's last '.'. */
  lemma StemPrefix(path: string)
    ensures '/' !in Stem(path)
    ensures |Stem(path)| <= |Name(path)| && Stem(path) == Name(path)[..|Stem(path)|]
    ensures Name(path) != [] ==> Stem(path) != []
    ensures Stem(path) != Name(path) ==> 0 < |Stem(path)| < |Name(path)| - 1
    ensures Stem(path) != Name(path) ==> Name(path)[|Stem(path)|] == '.'
    ensures Stem(path) != Name(path) ==> '.' !in Name(path)[|Stem(path)| + 1..]
  {
    var name := Name(path);
    var i := RFind(name, '.');
    AfterLastFree(path, '/');
    if 0 < i < |name| - 1 {
      RFindIsLast(name, '.');
      assert Stem(path) == name[..i];
    }
  }

  /** A last '.' that neither starts nor ends the name is where the stem stops. */
  lemma StemAtLastDot(path: string)
    ensures forall i :: 0 < i < |Name(path)| - 1 && Name(path)[i] == '.' && '.' !in Name(path)[i + 1..] ==>
      Stem(path) == Name(path)[..i]
  {
    var name := Name(path);
    forall j | 0 < j < |name| - 1 && name[j] == '.' && '.' !in name[j + 1..]
      ensures Stem(path) == name[..j]
    {
      forall k | j < k < |name| ensures name[k] != '.' {
        assert name[k] == name[j + 1..][k - j - 1];
      }
      RFindUnique(name, '.', j);
    }
  }

  /**
   * The whole characterisation of the stem, bundling `StemPrefix` and
   * `StemAtLastDot`: a prefix of the name, without '/', and not empty unless
   * the name is. It is shorter than the name exactly when the name's last
   * '.' is neither its first nor its last character: the stem then stops
   * right before that '.', and otherwise it is the whole name.
   */
  lemma StemOfName(path: string)
    ensures '/' !in Stem(path)
    ensures |Stem(path)| <= |Name(path)| && Stem(path) == Name(path)[..|Stem(path)|]
    ensures Name(path) != [] ==> Stem(path) != []
    ensures Stem(path) != Name(path) ==> 0 < |Stem(path)| < |Name(path)| - 1
    ensures Stem(path) != Name(path) ==> Name(path)[|Stem(path)|] == '.'
    ensures Stem(path) != Name(path) ==> '.' !in Name(path)[|Stem(path)| + 1..]
    ensures forall i :: 0 < i < |Name(path)| - 1 && Name(path)[i] == '.' && '.' !in Name(path)[i + 1..] ==>
      Stem(path) == Name(path)[..i]
  {
    StemPrefix(path);
    StemAtLastDot(path);
  }

  /** A name that ends in '.' is its own stem: `clip.` and `a.b.` keep their last '.'. */
  lemma StemTrailingDot(path: string)
    requires Name(path) != [] && Name(path)[|Name(path)| - 1] == '.'
    ensures Stem(path) == Name(path)
  {
    StemOfName(path);
  }

  /** The stem of a bare file name `base.ext` is `base`. */
  lemma StemOfBareFile(base: string, ext: string)
    requires base != [] && '/' !in base
    requires ext != [] && '/' !in ext && '.' !in ext
    ensures Stem(base + "." + ext) == base
  {
    var name := base + "." + ext;
    assert '/' !in name;
    RFindAbsent(name, '/');
    assert name[0..] == name;
    assert name == base + ['.'] + ext;
    RFindAfter(base, '.', ext);
    assert name[..|base|] == base;
  }

  /** The stem of `dir/base.ext` is `base` when `ext` is a plain, non-empty extension. */
  lemma StemOfFile(dir: string, base: string, ext: string)
    requires base != [] && '/' !in base
    requires ext != [] && '/' !in ext && '.' !in ext
    ensures Stem(dir + "/" + base + "." + ext) == base
  {
    var name := base + "." + ext;
    assert dir + "/" + base + "." + ext == dir + ['/'] + name;
    AfterLastConcat(dir, '/', name);
    assert name == base + ['.'] + ext;
    RFindAfter(base, '.', ext);
    assert name[..|base|] == base;
  }

  // ---------------------------------------------------------------- int to text

  /** The decimal digit for `d`. */
  function Digit(d: nat): (c: char)
    requires d < 10
  {
    (d + '0' as int) as char
  }

  /** `str(n)` for a non-negative `n`. */
  function NatToString(n: nat): (r: string)
    ensures |r| >= 1
    ensures n >= 10 ==> |r| >= 2
    ensures forall k :: 0 <= k < |r| ==> '0' <= r[k] <= '9'
    decreases n
  {
    if n < 10 then [Digit(n)] else NatToString(n / 10) + [Digit(n % 10)]
  }

  /** Different numbers have different decimal renderings. */
  lemma {:induction false} NatToStringInjective(a: nat, b: nat)
    requires NatToString(a) == NatToString(b)
    ensures a == b
    decreases a
  {
    var s := NatToString(a);
    if a < 10 && b < 10 {
      assert Digit(a) == s[0] == Digit(b);
    } else if a < 10 || b < 10 {
      // one rendering has a single digit and the other at least two
    } else {
      assert Digit(a % 10) == s[|s| - 1] == Digit(b % 10);
      assert NatToString(a / 10) == s[..|s| - 1] == NatToString(b / 10);
      NatToStringInjective(a / 10, b / 10);
    }
  }
}
