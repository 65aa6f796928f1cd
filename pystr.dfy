/**
 * The Python string primitives the modelled code relies on: `str.isspace`,
 * `strip`, `split()`, `split(sep)`, `join`, `replace`, `lower`, `in`,
 * `startswith`, `endswith` and slicing with a clamped end.
 */
module PyStr {

  /** Python's `str.isspace` for one character. */
  predicate IsSpace(c: char)
  {
    || c == ' '
    || ('\t' <= c <= '\r')
    || ('\U{1C}' <= c <= '\U{1F}')
    || c == '\U{85}' || c == '\U{A0}' || c == '\U{1680}'
    || ('\U{2000}' <= c <= '\U{200A}')
    || c == '\U{2028}' || c == '\U{2029}' || c == '\U{202F}' || c == '\U{205F}' || c == '\U{3000}'
  }

  /** `not s.strip()`: the string is empty or made of whitespace only. */
  predicate IsBlank(s: string)
  {
    forall i :: 0 <= i < |s| ==> IsSpace(s[i])
  }

  /** Neither end of the string is whitespace. */
  predicate IsStripped(s: string)
  {
    s == [] || (!IsSpace(s[0]) && !IsSpace(s[|s| - 1]))
  }

  /** `s.lstrip()`: drops the leading whitespace. */
  function LStrip(s: string): (r: string)
    ensures |r| <= |s|
    ensures r == [] || !IsSpace(r[0])
  {
    if s != [] && IsSpace(s[0]) then LStrip(s[1..]) else s
  }

  /** `s.lstrip()` is the longest suffix of `s` that does not start with whitespace. */
  lemma {:induction false} LStripSuffix(s: string)
    ensures LStrip(s) == s[|s| - |LStrip(s)|..]
    ensures forall i :: 0 <= i < |s| - |LStrip(s)| ==> IsSpace(s[i])
    decreases |s|
  {
    if s != [] && IsSpace(s[0]) {
      LStripSuffix(s[1..]);
    }
  }

  /** `s.rstrip()`: drops the trailing whitespace. */
  function RStrip(s: string): (r: string)
    ensures |r| <= |s|
    ensures r == [] || !IsSpace(r[|r| - 1])
  {
    if s != [] && IsSpace(s[|s| - 1]) then RStrip(s[..|s| - 1]) else s
  }

  /** `s.rstrip()` is the longest prefix of `s` that does not end with whitespace. */
  lemma {:induction false} RStripPrefix(s: string)
    ensures RStrip(s) == s[..|RStrip(s)|]
    ensures forall i :: |RStrip(s)| <= i < |s| ==> IsSpace(s[i])
    decreases |s|
  {
    if s != [] && IsSpace(s[|s| - 1]) {
      RStripPrefix(s[..|s| - 1]);
    }
  }

  /** `s.strip()`. */
  function Strip(s: string): (r: string)
    ensures IsStripped(r)
    ensures |r| <= |s|
  {
    var l := LStrip(s);
    RStripPrefix(l);
    RStrip(l)
  }

  /** `not s.strip()` holds exactly of the blank strings. */
  lemma StripEmptyIffBlank(s: string)
    ensures Strip(s) == [] <==> IsBlank(s)
  {
    var l := LStrip(s);
    LStripSuffix(s);
    RStripPrefix(l);
  }

  /** The stripped string is a contiguous piece of the original, and what was cut
      off at either end is whitespace. */
  lemma StripIsSlice(s: string) returns (a: nat)
    ensures a + |Strip(s)| <= |s| && Strip(s) == s[a..a + |Strip(s)|]
    ensures forall i :: 0 <= i < a ==> IsSpace(s[i])
    ensures forall i :: a + |Strip(s)| <= i < |s| ==> IsSpace(s[i])
  {
    var l := LStrip(s);
    LStripSuffix(s);
    RStripPrefix(l);
    a := |s| - |l|;
    assert Strip(s) == l[..|Strip(s)|];
    forall i | a + |Strip(s)| <= i < |s| ensures IsSpace(s[i]) {
      assert s[i] == l[i - a];
    }
  }

  /** A stripped string is its own strip. */
  lemma StripStripped(s: string)
    requires IsStripped(s)
    ensures Strip(s) == s
  {
    assert LStrip(s) == s;
    assert RStrip(s) == s;
  }

  /** The longest whitespace-free prefix of `s`. */
  function TakeWord(s: string): (w: string)
    ensures |w| <= |s|
    ensures s != [] && !IsSpace(s[0]) ==> w != []
  {
    if s == [] || IsSpace(s[0]) then [] else [s[0]] + TakeWord(s[1..])
  }

  /** `s.split()`: the maximal runs of non-whitespace characters, in order. */
  function Words(s: string): (ws: seq<string>)
    decreases |s|
  {
    var t := LStrip(s);
    if t == [] then [] else var w := TakeWord(t); [w] + Words(t[|w|..])
  }

  /** What `TakeWord` takes is a prefix without whitespace, and it stops at
      whitespace or at the end. */
  lemma {:induction false} TakeWordPrefix(s: string)
    ensures TakeWord(s) == s[..|TakeWord(s)|]
    ensures forall i :: 0 <= i < |TakeWord(s)| ==> !IsSpace(TakeWord(s)[i])
    ensures |TakeWord(s)| == |s| || IsSpace(s[|TakeWord(s)|])
    decreases |s|
  {
    if s != [] && !IsSpace(s[0]) {
      TakeWordPrefix(s[1..]);
    }
  }

  /** Reference definition of `" ".join(s.split())`, read character by
      character: each whitespace run between two words becomes one space, and
      whitespace before the first word or after the last disappears. `started`
      says a word has been seen, `gap` that whitespace followed it. */
  function Squeeze(s: string, started: bool, gap: bool): string
    decreases |s|
  {
    if s == [] then []
    else if IsSpace(s[0]) then Squeeze(s[1..], started, started)
    else (if gap then " " else "") + [s[0]] + Squeeze(s[1..], true, false)
  }

  /** Leading whitespace only turns into a pending gap. */
  lemma {:induction false} SqueezeLeadingSpace(s: string, started: bool, gap: bool)
    requires gap ==> started
    ensures Squeeze(s, started, gap) == Squeeze(LStrip(s), started, gap || (started && |LStrip(s)| < |s|))
    decreases |s|
  {
    if s != [] && IsSpace(s[0]) {
      SqueezeLeadingSpace(s[1..], started, started);
    }
  }

  /** A word is copied whole, after the pending gap. */
  lemma {:induction false} SqueezeWord(t: string, started: bool, gap: bool)
    requires t != [] && !IsSpace(t[0])
    ensures Squeeze(t, started, gap) ==
              (if gap then " " else "") + TakeWord(t) + Squeeze(t[|TakeWord(t)|..], true, false)
    decreases |t|
  {
    var pre := if gap then " " else "";
    var rest := t[1..];
    var w := TakeWord(rest);
    assert Squeeze(t, started, gap) == pre + [t[0]] + Squeeze(rest, true, false);
    assert TakeWord(t) == [t[0]] + w;
    if rest != [] && !IsSpace(rest[0]) {
      var after := rest[|w|..];
      SqueezeWord(rest, true, false);
      assert t[|TakeWord(t)|..] == after;
      RegroupWord(pre, [t[0]], w, Squeeze(after, true, false));
    } else {
      assert w == [];
      assert t[|TakeWord(t)|..] == rest;
    }
  }

  lemma RegroupWord(pre: string, first: string, w: string, after: string)
    ensures pre + first + ("" + w + after) == pre + (first + w) + after
  {
  }

  /** A word, then the squeezed rest, is the pending gap and the joined words. */
  lemma JoinWordFront(pre: string, w: string, rest: seq<string>, squeezedRest: string)
    requires squeezedRest == if rest == [] then [] else " " + Join(rest, " ")
    ensures pre + w + squeezedRest == pre + Join([w] + rest, " ")
  {
    if rest != [] {
      assert ([w] + rest)[1..] == rest;
      assert Join([w] + rest, " ") == w + " " + Join(rest, " ");
    }
  }

  lemma {:induction false} SqueezeWords(s: string, started: bool, gap: bool)
    requires gap ==> started
    ensures Squeeze(s, started, gap) ==
              if Words(s) == [] then []
              else (if gap || (started && |LStrip(s)| < |s|) then " " else "") + Join(Words(s), " ")
    decreases |s|
  {
    var t := LStrip(s);
    var g := gap || (started && |t| < |s|);
    SqueezeLeadingSpace(s, started, gap);
    if t == [] {
      assert Words(s) == [];
    } else {
      var w := TakeWord(t);
      var r := t[|w|..];
      var words := Words(r);
      SqueezeWord(t, started, g);
      TakeWordPrefix(t);
      SqueezeWords(r, true, false);
      assert words == [] || |LStrip(r)| < |r|;
      JoinWordFront(if g then " " else "", w, words, Squeeze(r, true, false));
      assert Words(s) == [w] + words;
    }
  }

  /** `s.split()` gives non-empty words without whitespace, and joining them with
      single spaces gives `s` with every whitespace run made one space and the
      ends stripped. */
  lemma {:induction false} WordsJoin(s: string)
    ensures forall k :: 0 <= k < |Words(s)| ==>
              Words(s)[k] != [] && forall m :: 0 <= m < |Words(s)[k]| ==> !IsSpace(Words(s)[k][m])
    ensures Join(Words(s), " ") == Squeeze(s, false, false)
    decreases |s|
  {
    SqueezeWords(s, false, false);
    var t := LStrip(s);
    if t != [] {
      var w := TakeWord(t);
      var later := Words(t[|w|..]);
      TakeWordPrefix(t);
      WordsJoin(t[|w|..]);
      assert Words(s) == [w] + later;
      forall k | 0 <= k < |Words(s)|
        ensures Words(s)[k] != [] && forall m :: 0 <= m < |Words(s)[k]| ==> !IsSpace(Words(s)[k][m])
      {
        if k > 0 {
          assert Words(s)[k] == later[k - 1];
        }
      }
    }
  }

  /** Index of the first `c` in `s`, or `|s|` when there is none. */
  function IndexOf(s: string, c: char): (i: nat)
    ensures i <= |s|
    ensures i < |s| ==> s[i] == c
  {
    if s == [] then 0 else if s[0] == c then 0 else 1 + IndexOf(s[1..], c)
  }

  /** No `c` comes before the index `IndexOf` finds: it is the first one. */
  lemma {:induction false} IndexOfFirst(s: string, c: char)
    ensures forall j :: 0 <= j < IndexOf(s, c) ==> s[j] != c
    decreases |s|
  {
    if s != [] && s[0] != c {
      IndexOfFirst(s[1..], c);
    }
  }

  /** `s.split(c)` for a one-character separator: the pieces between the separators. */
  function SplitOn(s: string, c: char): (fields: seq<string>)
    ensures |fields| >= 1
    decreases |s|
  {
    var i := IndexOf(s, c);
    if i == |s| then [s] else [s[..i]] + SplitOn(s[i + 1..], c)
  }

  /** `sep.join(parts)`. */
  function Join(parts: seq<string>, sep: string): string
  {
    if |parts| == 0 then "" else if |parts| == 1 then parts[0] else parts[0] + sep + Join(parts[1..], sep)
  }

  /** Number of occurrences of `c` in `s`. */
  function CountChar(s: string, c: char): nat
  {
    if s == [] then 0 else (if s[0] == c then 1 else 0) + CountChar(s[1..], c)
  }

  lemma {:induction false} CountCharAppend(a: string, b: string, c: char)
    ensures CountChar(a + b, c) == CountChar(a, c) + CountChar(b, c)
    decreases |a|
  {
    if a == [] {
      assert a + b == b;
    } else {
      assert (a + b)[1..] == a[1..] + b;
      CountCharAppend(a[1..], b, c);
    }
  }

  lemma {:induction false} CountCharAbsent(s: string, c: char)
    requires forall j :: 0 <= j < |s| ==> s[j] != c
    ensures CountChar(s, c) == 0
    decreases |s|
  {
    if s != [] {
      CountCharAbsent(s[1..], c);
    }
  }

  /** Joining the fields of `s.split(c)` with `c` gives back `s`. */
  lemma {:induction false} SplitOnJoin(s: string, c: char)
    ensures Join(SplitOn(s, c), [c]) == s
    decreases |s|
  {
    var i := IndexOf(s, c);
    if i < |s| {
      var rest := s[i + 1..];
      SplitOnJoin(rest, c);
      var tail := SplitOn(rest, c);
      assert SplitOn(s, c) == [s[..i]] + tail;
      assert Join(SplitOn(s, c), [c]) == s[..i] + [c] + Join(tail, [c]);
      assert s == s[..i] + [c] + rest;
    }
  }

  /** No field of `s.split(c)` holds a `c`. */
  lemma {:induction false} SplitOnFieldsFree(s: string, c: char)
    ensures forall k, j :: 0 <= k < |SplitOn(s, c)| && 0 <= j < |SplitOn(s, c)[k]| ==> SplitOn(s, c)[k][j] != c
    decreases |s|
  {
    var i := IndexOf(s, c);
    IndexOfFirst(s, c);
    if i < |s| {
      var rest := s[i + 1..];
      SplitOnFieldsFree(rest, c);
      var fields := SplitOn(s, c);
      forall k, j | 0 <= k < |fields| && 0 <= j < |fields[k]| ensures fields[k][j] != c {
        if k > 0 {
          assert fields[k] == SplitOn(rest, c)[k - 1];
        }
      }
    }
  }

  /** `s.split(c)` has one field more than `s` has separators. */
  lemma {:induction false} SplitOnCount(s: string, c: char)
    ensures |SplitOn(s, c)| == CountChar(s, c) + 1
    decreases |s|
  {
    var i := IndexOf(s, c);
    IndexOfFirst(s, c);
    if i == |s| {
      CountCharAbsent(s, c);
    } else {
      var rest := s[i + 1..];
      SplitOnCount(rest, c);
      assert s == s[..i] + ([c] + rest);
      CountCharAbsent(s[..i], c);
      CountCharAppend(s[..i], [c] + rest, c);
      CountCharAppend([c], rest, c);
    }
  }

  /** Each field of `s.split(c)` is a contiguous piece of `s`, starting at `a`. */
  lemma {:induction false} SplitOnSlices(s: string, c: char, k: nat) returns (a: nat)
    requires k < |SplitOn(s, c)|
    ensures a + |SplitOn(s, c)[k]| <= |s| && SplitOn(s, c)[k] == s[a..a + |SplitOn(s, c)[k]|]
    decreases |s|
  {
    var i := IndexOf(s, c);
    if i == |s| {
      a := 0;
    } else {
      var rest := s[i + 1..];
      var tail := SplitOn(rest, c);
      assert SplitOn(s, c) == [s[..i]] + tail;
      if k == 0 {
        a := 0;
      } else {
        var f := tail[k - 1];
        var b := SplitOnSlices(rest, c, k - 1);
        a := i + 1 + b;
        DropSlice(s, i + 1, b, |f|);
      }
    }
  }

  /** A slice of a suffix is a slice of the whole string, shifted by the dropped prefix. */
  lemma DropSlice(s: string, d: nat, b: nat, n: nat)
    requires d <= |s| && b + n <= |s| - d
    ensures s[d..][b..b + n] == s[d + b..d + b + n]
  {
  }

  /** `s.replace(pat, rep)`: replaces the non-overlapping occurrences of `pat`, scanning left to right. */
  function Replace(s: string, pat: string, rep: string): string
    requires pat != []
    decreases |s|
  {
    if |s| < |pat| then s
    else if s[..|pat|] == pat then rep + Replace(s[|pat|..], pat, rep)
    else [s[0]] + Replace(s[1..], pat, rep)
  }

  /** `s.startswith(p)`. */
  predicate StartsWith(s: string, p: string)
  {
    |p| <= |s| && s[..|p|] == p
  }

  /** `s.endswith(p)`. */
  predicate EndsWith(s: string, p: string)
  {
    |p| <= |s| && s[|s| - |p|..] == p
  }

  /** `sub in s`. */
  predicate Contains(s: string, sub: string)
    decreases |s|
  {
    StartsWith(s, sub) || (s != [] && Contains(s[1..], sub))
  }

  /** An occurrence at a given position makes `sub in s` true. */
  lemma {:induction false} ContainsAt(s: string, sub: string, i: nat)
    requires i + |sub| <= |s| && s[i..i + |sub|] == sub
    ensures Contains(s, sub)
    decreases i
  {
    if i > 0 {
      assert s[1..][i - 1..i - 1 + |sub|] == sub;
      ContainsAt(s[1..], sub, i - 1);
    }
  }

  /** `sub` occurs in `s` starting at position `i`. */
  predicate OccursAt(s: string, sub: string, i: nat)
  {
    i + |sub| <= |s| && s[i..i + |sub|] == sub
  }

  /** `sub in s` holds exactly when `sub` occurs in `s` at some position. */
  lemma {:induction false} ContainsIff(s: string, sub: string)
    ensures Contains(s, sub) <==> exists i: nat :: OccursAt(s, sub, i)
    decreases |s|
  {
    if exists i: nat :: OccursAt(s, sub, i) {
      var i: nat :| OccursAt(s, sub, i);
      ContainsAt(s, sub, i);
    }
    if Contains(s, sub) {
      if StartsWith(s, sub) {
        assert s[0..0 + |sub|] == sub;
        assert OccursAt(s, sub, 0);
      } else {
        ContainsIff(s[1..], sub);
        var i: nat :| OccursAt(s[1..], sub, i);
        assert s[i + 1..i + 1 + |sub|] == s[1..][i..i + |sub|];
        assert OccursAt(s, sub, i + 1);
      }
    }
  }

  /**
   * `(pre + pat + post).replace(pat, rep)` when the first occurrence of `pat` starts right
   * after `pre`: `pre` is kept, that occurrence becomes `rep` and the scan resumes after it.
   */
  lemma {:induction false} ReplaceFirst(pre: string, pat: string, post: string, rep: string)
    requires pat != []
    requires forall j: nat :: j < |pre| ==> !OccursAt(pre + pat + post, pat, j)
    ensures Replace(pre + pat + post, pat, rep) == pre + rep + Replace(post, pat, rep)
    decreases |pre|
  {
    var s := pre + pat + post;
    if pre == [] {
      assert s == pat + post;
      ReplaceHit(pat, post, rep);
    } else {
      assert !OccursAt(s, pat, 0);
      ReplaceMiss(s, pat, rep);
      var rest := pre[1..];
      assert s[1..] == rest + pat + post;
      forall j: nat | j < |rest|
        ensures !OccursAt(rest + pat + post, pat, j)
      {
        OccursShift(s, pat, j + 1);
      }
      ReplaceFirst(rest, pat, post, rep);
      RegroupFront([pre[0]], rest, rep, Replace(post, pat, rep));
      assert [pre[0]] + rest == pre;
    }
  }

  lemma RegroupFront(c: string, a: string, rep: string, after: string)
    ensures c + (a + rep + after) == c + a + rep + after
  {
  }

  lemma ReplaceHit(pat: string, post: string, rep: string)
    requires pat != []
    ensures Replace(pat + post, pat, rep) == rep + Replace(post, pat, rep)
  {
    assert (pat + post)[..|pat|] == pat;
    assert (pat + post)[|pat|..] == post;
  }

  lemma ReplaceMiss(s: string, pat: string, rep: string)
    requires pat != [] && |pat| <= |s| && !OccursAt(s, pat, 0)
    ensures Replace(s, pat, rep) == [s[0]] + Replace(s[1..], pat, rep)
  {
    assert s[..|pat|] == s[0..0 + |pat|];
  }

  lemma OccursShift(s: string, sub: string, i: nat)
    requires 0 < i <= |s|
    ensures OccursAt(s, sub, i) <==> OccursAt(s[1..], sub, i - 1)
  {
    if i + |sub| <= |s| {
      assert s[1..][i - 1..i - 1 + |sub|] == s[i..i + |sub|];
    }
  }

  /** Without an occurrence of `pat`, `s.replace(pat, rep)` is `s`. */
  lemma {:induction false} ReplaceAbsent(s: string, pat: string, rep: string)
    requires pat != [] && !Contains(s, pat)
    ensures Replace(s, pat, rep) == s
    decreases |s|
  {
    if |pat| <= |s| {
      ReplaceAbsent(s[1..], pat, rep);
    }
  }

  /** `c.lower()` for ASCII letters; every other character is left as it is. */
  function LowerChar(c: char): char
  {
    if 'A' <= c <= 'Z' then (c as int + 32) as char else c
  }

  /** `s.lower()`, character by character. */
  function Lower(s: string): (r: string)
    ensures |r| == |s|
    ensures forall i :: 0 <= i < |s| ==> r[i] == LowerChar(s[i])
  {
    if s == [] then [] else [LowerChar(s[0])] + Lower(s[1..])
  }

  /** `s[:n]`: Python slicing clamps the end to the length. */
  function Take(s: string, n: nat): (r: string)
    ensures |r| <= n && |r| <= |s|
    ensures r == s[..|r|]
    ensures |s| <= n ==> r == s
    ensures |s| > n ==> |r| == n
  {
    if |s| <= n then s else s[..n]
  }

  /** No two adjacent `*` characters, that is, no Markdown bold marker. */
  predicate NoDoubleStar(s: string)
  {
    forall i :: 0 <= i < |s| - 1 ==> !(s[i] == '*' && s[i + 1] == '*')
  }

  lemma NoDoubleStarSlice(s: string, a: nat, b: nat)
    requires a <= b <= |s| && NoDoubleStar(s)
    ensures NoDoubleStar(s[a..b])
  {
    var t := s[a..b];
    forall i | 0 <= i < |t| - 1 ensures !(t[i] == '*' && t[i + 1] == '*') {
      assert t[i] == s[a + i] && t[i + 1] == s[a + i + 1];
    }
  }

  lemma NoDoubleStarConcat(a: string, b: string)
    requires NoDoubleStar(a) && NoDoubleStar(b)
    requires a == [] || b == [] || a[|a| - 1] != '*' || b[0] != '*'
    ensures NoDoubleStar(a + b)
  {
    var t := a + b;
    forall i | 0 <= i < |t| - 1 ensures !(t[i] == '*' && t[i + 1] == '*') {
      if i + 1 < |a| {
        assert t[i] == a[i] && t[i + 1] == a[i + 1];
      } else if i >= |a| {
        assert t[i] == b[i - |a|] && t[i + 1] == b[i + 1 - |a|];
      }
    }
  }

  /** `s.replace("**", "")` leaves no bold marker behind: a left-to-right scan never
      leaves a `*` directly in front of a removed pair. */
  lemma {:induction false} RemoveBoldLeavesNone(s: string)
    ensures NoDoubleStar(Replace(s, "**", ""))
    decreases |s|
  {
    if |s| < 2 {
    } else if s[..2] == "**" {
      RemoveBoldLeavesNone(s[2..]);
      assert Replace(s, "**", "") == Replace(s[2..], "**", "");
    } else {
      var rest := Replace(s[1..], "**", "");
      RemoveBoldLeavesNone(s[1..]);
      assert Replace(s, "**", "") == [s[0]] + rest;
      if s[0] == '*' {
        assert s[1] != '*';
        var t := s[1..];
        if |t| >= 2 {
          assert t[..2] != "**";
          assert rest == [t[0]] + Replace(t[1..], "**", "");
        } else {
          assert rest == t;
        }
        assert rest[0] != '*';
      }
      NoDoubleStarConcat([s[0]], rest);
    }
  }

  /** Stripping keeps a string free of bold markers. */
  lemma NoDoubleStarStrip(s: string)
    requires NoDoubleStar(s)
    ensures NoDoubleStar(Strip(s))
  {
    var a := StripIsSlice(s);
    NoDoubleStarSlice(s, a, a + |Strip(s)|);
  }

  /** Joining bold-free strings with a separator free of `*` gives a bold-free string. */
  lemma {:induction false} NoDoubleStarJoin(parts: seq<string>, sep: string)
    requires forall k :: 0 <= k < |parts| ==> NoDoubleStar(parts[k])
    requires sep != [] && forall j :: 0 <= j < |sep| ==> sep[j] != '*'
    ensures NoDoubleStar(Join(parts, sep))
    decreases |parts|
  {
    if |parts| > 1 {
      NoDoubleStarJoin(parts[1..], sep);
      NoDoubleStarConcat(sep, Join(parts[1..], sep));
      NoDoubleStarConcat(parts[0] + sep, Join(parts[1..], sep)) by {
        NoDoubleStarConcat(parts[0], sep);
        assert (parts[0] + sep)[|parts[0] + sep| - 1] == sep[|sep| - 1];
      }
      assert Join(parts, sep) == parts[0] + sep + Join(parts[1..], sep);
    }
  }
}
