/**
  The handful of Python string operations the extractor relies on:
  `str.lower`, `str.endswith`, `str.join`, `str.replace` and `str.rfind`
  over strings as sequences of characters, and `os.path.splitext` for file
  names.
*/
module Strings {

  /** Lower-cases one character; only the ASCII letters A-Z change. */
  function LowerChar(c: char): (r: char)
    ensures 'A' <= c <= 'Z' ==> 'a' <= r <= 'z' && r as int - c as int == 'a' as int - 'A' as int
    ensures !('A' <= c <= 'Z') ==> r == c
  {
    if 'A' <= c <= 'Z' then (c as int - 'A' as int + 'a' as int) as char else c
  }

  /** `s.lower()`, restricted to ASCII letters. */
  function ToLower(s: string): (r: string)
    ensures |r| == |s|
    ensures forall i :: 0 <= i < |s| ==> r[i] == LowerChar(s[i])
  {
    if s == [] then [] else [LowerChar(s[0])] + ToLower(s[1..])
  }

  /** `s.endswith(suffix)`. */
  predicate EndsWith(s: string, suffix: string)
  {
    |suffix| <= |s| && s[|s| - |suffix|..] == suffix
  }

  /** `sep.join(parts)`: the parts in order with `sep` between neighbours. */
  function Join(parts: seq<string>, sep: string): (r: string)
    ensures parts == [] ==> r == ""
    ensures |parts| == 1 ==> r == parts[0]
    ensures forall c :: c in r ==> c in sep || exists i :: 0 <= i < |parts| && c in parts[i]
  {
    if parts == [] then ""
    else if |parts| == 1 then parts[0]
    else parts[0] + sep + Join(parts[1..], sep)
  }

  /**
    Joining one more part appends the separator and that part: the join read
    from the right, as a loop that adds one part at a time would build it.
  */
  lemma {:induction false} JoinSnoc(parts: seq<string>, x: string, sep: string)
    requires |parts| >= 1
    ensures Join(parts + [x], sep) == Join(parts, sep) + sep + x
  {
    var ps := parts + [x];
    assert ps[1..] == parts[1..] + [x];
    if |parts| > 1 {
      JoinSnoc(parts[1..], x, sep);
    }
  }

  /** The total length of the strings in `ss`. */
  function TotalLength(ss: seq<string>): nat
  {
    if ss == [] then 0 else |ss[0]| + TotalLength(ss[1..])
  }

  /** A join is as long as its parts plus one separator between each two neighbours. */
  lemma {:induction false} JoinLength(parts: seq<string>, sep: string)
    requires |parts| >= 1
    ensures |Join(parts, sep)| == TotalLength(parts) + (|parts| - 1) * |sep|
  {
    if |parts| > 1 {
      JoinLength(parts[1..], sep);
    }
  }

  /** The strings of `ss` one after another, as repeated `+=` builds them. */
  function Concat(ss: seq<string>): string
  {
    if ss == [] then "" else Concat(ss[..|ss| - 1]) + ss[|ss| - 1]
  }

  /** Concatenation splits over an append of the sequences. */
  lemma {:induction false} ConcatAppend(xs: seq<string>, ys: seq<string>)
    ensures Concat(xs + ys) == Concat(xs) + Concat(ys)
  {
    if ys == [] {
      assert xs + ys == xs;
    } else {
      var init, last := ys[..|ys| - 1], ys[|ys| - 1];
      ConcatAppend(xs, init);
      assert ys == init + [last];
      assert xs + ys == (xs + init) + [last];
    }
  }

  /** `[f(x) for x in xs]`. */
  function MapToStrings<T>(xs: seq<T>, f: T -> string): (ss: seq<string>)
    ensures |ss| == |xs|
  {
    if xs == [] then [] else MapToStrings(xs[..|xs| - 1], f) + [f(xs[|xs| - 1])]
  }

  /** The string at `i` is the image of the element at `i`. */
  lemma {:induction false} MapToStringsAt<T>(xs: seq<T>, f: T -> string, i: nat)
    requires i < |xs|
    ensures MapToStrings(xs, f)[i] == f(xs[i])
  {
    if i < |xs| - 1 {
      MapToStringsAt(xs[..|xs| - 1], f, i);
    }
  }

  /** Mapping an append gives the appended images. */
  lemma {:induction false} MapToStringsAppend<T>(xs: seq<T>, ys: seq<T>, f: T -> string)
    ensures MapToStrings(xs + ys, f) == MapToStrings(xs, f) + MapToStrings(ys, f)
  {
    if ys == [] {
      assert xs + ys == xs;
    } else {
      var init, last := ys[..|ys| - 1], ys[|ys| - 1];
      MapToStringsAppend(xs, init, f);
      assert ys == init + [last];
      assert xs + ys == (xs + init) + [last];
    }
  }

  /** A character absent from every part is absent from their concatenation. */
  lemma {:induction false} ConcatAvoids(ss: seq<string>, c: char)
    requires forall i :: 0 <= i < |ss| ==> c !in ss[i]
    ensures c !in Concat(ss)
  {
    if ss != [] {
      ConcatAvoids(ss[..|ss| - 1], c);
    }
  }

  /** `s.replace(c, "")`: every occurrence of `c` deleted, the rest kept in order. */
  function RemoveChar(s: string, c: char): (r: string)
    ensures c !in r
    ensures |r| <= |s|
    ensures forall x :: x != c ==> (x in r <==> x in s)
    ensures c !in s ==> r == s
  {
    if s == [] then ""
    else if s[0] == c then RemoveChar(s[1..], c)
    else [s[0]] + RemoveChar(s[1..], c)
  }

  /** Removal keeps every other character with its count and drops every `c`. */
  lemma {:induction false} RemoveCharCounts(s: string, c: char)
    ensures multiset(RemoveChar(s, c)) == multiset(s)[c := 0]
  {
    if s != [] {
      assert s == [s[0]] + s[1..];
      RemoveCharCounts(s[1..], c);
    }
  }

  /**
    Removal works piece by piece: what is left of `s + t` is what is left of
    `s` followed by what is left of `t`, so the kept characters stay in order.
  */
  lemma {:induction false} RemoveCharAppend(s: string, t: string, c: char)
    ensures RemoveChar(s + t, c) == RemoveChar(s, c) + RemoveChar(t, c)
  {
    if s != [] {
      assert (s + t)[0] == s[0];
      assert (s + t)[1..] == s[1..] + t;
      RemoveCharAppend(s[1..], t, c);
    } else {
      assert s + t == t;
    }
  }

  /** A single character is dropped when it is `c` and kept otherwise. */
  lemma RemoveCharSingle(x: char, c: char)
    ensures RemoveChar([x], c) == if x == c then "" else [x]
  {
    assert [x][1..] == [];
  }

  /** `s.replace(target, replacement)` for single characters: a position-wise substitution. */
  function ReplaceChar(s: string, target: char, replacement: char): (r: string)
    ensures |r| == |s|
    ensures forall i :: 0 <= i < |s| ==> r[i] == if s[i] == target then replacement else s[i]
  {
    if s == [] then ""
    else [if s[0] == target then replacement else s[0]] + ReplaceChar(s[1..], target, replacement)
  }

  /** `s.rfind(c)`: the index of the last occurrence of `c`, or -1. */
  function LastIndexOf(s: string, c: char): (r: int)
    ensures -1 <= r < |s|
    ensures r >= 0 ==> s[r] == c
    ensures forall j :: r < j < |s| ==> s[j] != c
  {
    if s == [] then -1
    else if s[|s| - 1] == c then |s| - 1
    else LastIndexOf(s[..|s| - 1], c)
  }

  /** True when `s` holds a character other than '.'. */
  predicate HasNonDot(s: string)
  {
    exists i :: 0 <= i < |s| && s[i] != '.'
  }

  /**
    `os.path.splitext(p)[0]` with POSIX separators, written as the library
    writes it: the last '.' after the last '/' starts the extension, unless
    every character of the base name before it is a '.', in which case
    nothing is dropped.
  */
  function SplitextRoot(p: string): (r: string)
  {
    var sepIndex := LastIndexOf(p, '/');
    var dotIndex := LastIndexOf(p, '.');
    if dotIndex > sepIndex && HasNonDot(p[sepIndex + 1..dotIndex]) then p[..dotIndex] else p
  }

  /**
    The root is `p` itself or `p` cut at an extension dot: a '.' with no
    '.' or '/' after it, preceded in its base name by a non-dot.
  */
  lemma SplitextRootCut(p: string)
    ensures var r := SplitextRoot(p);
      && |r| <= |p| && r == p[..|r|]
      && (r != p ==>
        && p[|r|] == '.'
        && (forall j :: |r| < j < |p| ==> p[j] != '.' && p[j] != '/')
        && HasNonDot(p[LastIndexOf(p, '/') + 1..|r|]))
  {
    var sepIndex := LastIndexOf(p, '/');
    var dotIndex := LastIndexOf(p, '.');
    if dotIndex > sepIndex && HasNonDot(p[sepIndex + 1..dotIndex]) {
      var r := p[..dotIndex];
      assert SplitextRoot(p) == r;
      assert |r| == dotIndex;
    }
  }

  /** The base name of `q` (what follows its last '/') holds a character other than '.'. */
  function BaseHasNonDot(q: string): bool
  {
    if q == [] then false
    else if q[|q| - 1] == '/' then false
    else if q[|q| - 1] != '.' then true
    else BaseHasNonDot(q[..|q| - 1])
  }

  /**
    Where the extension of `p` starts, found by scanning from the right: the
    first '.' met before any '/', provided the base name before it holds a
    character other than '.'; -1 when there is no extension.
  */
  function ExtensionStart(p: string): (e: int)
    ensures -1 <= e < |p|
  {
    if p == [] then -1
    else if p[|p| - 1] == '/' then -1
    else if p[|p| - 1] == '.' then (if BaseHasNonDot(p[..|p| - 1]) then |p| - 1 else -1)
    else ExtensionStart(p[..|p| - 1])
  }

  /** The file name without its extension, `os.path.splitext(p)[0]`. */
  function Stem(p: string): (r: string)
    ensures |r| <= |p| && r == p[..|r|]
  {
    var e := ExtensionStart(p);
    if e < 0 then p else p[..e]
  }

  /** Appending a character adds a non-dot exactly when it is not a '.'. */
  lemma HasNonDotSnoc(t: string, c: char)
    ensures HasNonDot(t + [c]) <==> HasNonDot(t) || c != '.'
  {
    if HasNonDot(t + [c]) && c == '.' {
      var i :| 0 <= i < |t + [c]| && (t + [c])[i] != '.';
      assert i < |t| && t[i] != '.';
    }
    if HasNonDot(t) {
      var i :| 0 <= i < |t| && t[i] != '.';
      assert (t + [c])[i] != '.';
    }
    if c != '.' {
      assert (t + [c])[|t|] != '.';
    }
  }

  /** The last '/' of `q + [c]`, when `c` is not one, is that of `q`, and the base name grows by `c`. */
  lemma BaseSnoc(q: string, c: char)
    requires c != '/'
    ensures LastIndexOf(q + [c], '/') == LastIndexOf(q, '/')
    ensures (q + [c])[LastIndexOf(q, '/') + 1..] == q[LastIndexOf(q, '/') + 1..] + [c]
  {
    var p := q + [c];
    assert p[..|q|] == q;
    assert LastIndexOf(p, '/') == LastIndexOf(q, '/');
  }

  /** The scan agrees with the base name found through `rfind`. */
  lemma {:induction false} BaseHasNonDotMatches(q: string)
    ensures BaseHasNonDot(q) == HasNonDot(q[LastIndexOf(q, '/') + 1..])
  {
    if q != [] {
      var init, c := q[..|q| - 1], q[|q| - 1];
      assert q == init + [c];
      if c == '/' {
        assert LastIndexOf(q, '/') == |q| - 1;
      } else {
        BaseHasNonDotMatches(init);
        BaseSnoc(init, c);
        HasNonDotSnoc(init[LastIndexOf(init, '/') + 1..], c);
      }
    }
  }

  /** Appending a character other than `x` keeps the last index of `x`. */
  lemma LastIndexOfSnoc(q: string, c: char, x: char)
    requires c != x
    ensures LastIndexOf(q + [c], x) == LastIndexOf(q, x)
  {
    assert (q + [c])[..|q|] == q;
  }

  /** The recursive scan computes exactly what `splitext` computes. */
  lemma {:induction false} StemMatchesSplitext(p: string)
    ensures Stem(p) == SplitextRoot(p)
  {
    if p != [] {
      var init, c := p[..|p| - 1], p[|p| - 1];
      assert p == init + [c];
      if c == '/' {
        assert LastIndexOf(p, '/') == |p| - 1;
      } else if c == '.' {
        LastIndexOfSnoc(init, c, '/');
        BaseSnoc(init, c);
        BaseHasNonDotMatches(init);
        var sep := LastIndexOf(init, '/');
        assert LastIndexOf(p, '.') == |p| - 1;
        assert p[sep + 1..|p| - 1] == init[sep + 1..];
      } else {
        StemMatchesSplitext(init);
        LastIndexOfSnoc(init, c, '/');
        LastIndexOfSnoc(init, c, '.');
        StemSnoc(init, c);
      }
    }
  }

  /** Appending a character other than '.' or '/' to a name keeps `splitext`'s cut, if any. */
  lemma SplitextSnoc(init: string, c: char)
    requires c != '.' && c != '/'
    requires LastIndexOf(init + [c], '/') == LastIndexOf(init, '/')
    requires LastIndexOf(init + [c], '.') == LastIndexOf(init, '.')
    ensures SplitextRoot(init + [c]) == if SplitextRoot(init) == init then init + [c] else SplitextRoot(init)
  {
    var p := init + [c];
    var sep, dot := LastIndexOf(init, '/'), LastIndexOf(init, '.');
    if dot > sep {
      assert p[sep + 1..dot] == init[sep + 1..dot];
      assert p[..dot] == init[..dot];
    }
  }

  /** Appending a character other than '.' or '/' to a name keeps the scan's cut, if any. */
  lemma ExtensionSnoc(init: string, c: char)
    requires c != '.' && c != '/'
    ensures Stem(init + [c]) == if Stem(init) == init then init + [c] else Stem(init)
  {
    var p := init + [c];
    assert p[..|p| - 1] == init;
    var e := ExtensionStart(init);
    assert ExtensionStart(p) == e;
    if e >= 0 {
      assert p[..e] == init[..e];
    }
  }

  /** Appending a character other than '.' or '/' keeps the root's decision. */
  lemma StemSnoc(init: string, c: char)
    requires c != '.' && c != '/'
    requires Stem(init) == SplitextRoot(init)
    requires LastIndexOf(init + [c], '/') == LastIndexOf(init, '/')
    requires LastIndexOf(init + [c], '.') == LastIndexOf(init, '.')
    ensures Stem(init + [c]) == SplitextRoot(init + [c])
  {
    SplitextSnoc(init, c);
    ExtensionSnoc(init, c);
  }

  /** A name without an extension keeps every character. */
  lemma StemWithoutDot(p: string)
    requires '.' !in p
    ensures Stem(p) == p
  {
    StemMatchesSplitext(p);
  }

  /** In `pre + [c] + post` with no `c` in `post`, the last `c` is the one after `pre`. */
  lemma {:induction false} LastIndexOfMark(pre: string, c: char, post: string)
    requires c !in post
    ensures LastIndexOf(pre + [c] + post, c) == |pre|
  {
    if post == [] {
      assert pre + [c] + post == pre + [c];
    } else {
      var init, x := post[..|post| - 1], post[|post| - 1];
      assert post == init + [x];
      LastIndexOfMark(pre, c, init);
      assert pre + [c] + post == (pre + [c] + init) + [x];
      LastIndexOfSnoc(pre + [c] + init, x, c);
    }
  }

  /** A character that occurs nowhere has no last index. */
  lemma LastIndexOfAbsent(p: string, c: char)
    requires c !in p
    ensures LastIndexOf(p, c) == -1
  {
  }

  /** `base.ext` loses `.ext` when the base name holds a character other than '.'. */
  lemma StemDropsExtension(base: string, ext: string)
    requires '/' !in base && HasNonDot(base)
    requires '.' !in ext && '/' !in ext
    ensures Stem(base + "." + ext) == base
  {
    var p := base + "." + ext;
    assert p == base + ['.'] + ext;
    StemMatchesSplitext(p);
    LastIndexOfMark(base, '.', ext);
    assert '/' !in p;
    LastIndexOfAbsent(p, '/');
    assert p[0..|base|] == base;
  }

  /** A base name made of dots only (as in ".pdf") keeps its name whole. */
  lemma StemKeepsDotName(dots: string, ext: string)
    requires forall i :: 0 <= i < |dots| ==> dots[i] == '.'
    requires '.' !in ext && '/' !in ext
    ensures Stem(dots + "." + ext) == dots + "." + ext
  {
    var p := dots + "." + ext;
    assert p == dots + ['.'] + ext;
    StemMatchesSplitext(p);
    LastIndexOfMark(dots, '.', ext);
    assert '/' !in dots;
    assert '/' !in p;
    LastIndexOfAbsent(p, '/');
    assert p[0..|dots|] == dots;
  }

  /** The two cases named above, on file names. */
  lemma StemExamples()
    ensures Stem(".pdf") == ".pdf"
    ensures Stem("notice.pdf") == "notice"
  {
    StemKeepsDotName("", "pdf");
    assert "" + "." + "pdf" == ".pdf";
    assert HasNonDot("notice") by { assert "notice"[0] != '.'; }
    StemDropsExtension("notice", "pdf");
    assert "notice" + "." + "pdf" == "notice.pdf";
  }
}
