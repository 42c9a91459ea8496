/** The part of Python's `str` the transcription engine relies on:
    `replace`, `split`, `join`, `in`, `str(n)` and `int(s)`, over `seq<char>`.
 */
module Strings {
  import opened Results

  /** `s.startswith(p)`. */
  predicate StartsWith(s: string, p: string) {
    |p| <= |s| && s[..|p|] == p
  }

  /** `p in s`: the empty string occurs in every string. */
  predicate Contains(s: string, p: string)
    decreases |s|
  {
    StartsWith(s, p) || (|s| > 0 && Contains(s[1..], p))
  }

  lemma ContainsNeedsRoom(s: string, p: string)
    requires Contains(s, p)
    ensures |p| <= |s|
    decreases |s|
  {
    if !StartsWith(s, p) {
      ContainsNeedsRoom(s[1..], p);
    }
  }

  /** For a one-character pattern `in` is plain membership. */
  lemma {:induction false} ContainsChar(s: string, c: char)
    ensures Contains(s, [c]) <==> c in s
    decreases |s|
  {
    if |s| > 0 {
      ContainsChar(s[1..], c);
      assert s == [s[0]] + s[1..];
    }
  }

  /** `s.replace(pat, rep)`: every non-overlapping occurrence of `pat`,
      scanned left to right, becomes `rep`; an empty `pat` inserts `rep`
      before every character and at the end, as Python does. */
  function ReplaceAll(s: string, pat: string, rep: string): (r: string)
    ensures !Contains(s, pat) ==> r == s
    decreases |s|
  {
    if |pat| == 0 then
      if |s| == 0 then rep else rep + [s[0]] + ReplaceAll(s[1..], pat, rep)
    else if |s| < |pat| then
      s
    else if s[..|pat|] == pat then
      rep + ReplaceAll(s[|pat|..], pat, rep)
    else
      assert s == [s[0]] + s[1..];
      [s[0]] + ReplaceAll(s[1..], pat, rep)
  }

  /** Number of non-overlapping occurrences of `pat`, scanned left to right. */
  function Occurrences(s: string, pat: string): nat
    requires |pat| > 0
    decreases |s|
  {
    if |s| < |pat| then 0
    else if s[..|pat|] == pat then 1 + Occurrences(s[|pat|..], pat)
    else Occurrences(s[1..], pat)
  }

  lemma MulStep(k: int, d: int)
    ensures (1 + k) * d == d + k * d
  {
  }

  /** Each replaced occurrence changes the length by `|rep| - |pat|`. */
  lemma {:induction false} ReplaceAllLength(s: string, pat: string, rep: string)
    requires |pat| > 0
    ensures |ReplaceAll(s, pat, rep)| == |s| + Occurrences(s, pat) * (|rep| - |pat|)
    decreases |s|
  {
    if |s| < |pat| {
    } else if s[..|pat|] == pat {
      var rest := s[|pat|..];
      ReplaceAllLength(rest, pat, rep);
      var k := Occurrences(rest, pat);
      assert ReplaceAll(s, pat, rep) == rep + ReplaceAll(rest, pat, rep);
      assert Occurrences(s, pat) == 1 + k;
      assert |rest| == |s| - |pat|;
      MulStep(k, |rep| - |pat|);
    } else {
      ReplaceAllLength(s[1..], pat, rep);
      assert ReplaceAll(s, pat, rep) == [s[0]] + ReplaceAll(s[1..], pat, rep);
      assert Occurrences(s, pat) == Occurrences(s[1..], pat);
    }
  }

  /** Replacing a pattern by itself changes nothing. */
  lemma {:induction false} ReplaceAllSelf(s: string, pat: string)
    requires |pat| > 0
    ensures ReplaceAll(s, pat, pat) == s
    decreases |s|
  {
    if |s| < |pat| {
    } else if s[..|pat|] == pat {
      ReplaceAllSelf(s[|pat|..], pat);
      assert s == s[..|pat|] + s[|pat|..];
    } else {
      ReplaceAllSelf(s[1..], pat);
      assert s == [s[0]] + s[1..];
    }
  }

  /** An occurrence of `pat` right after `pre` is the first one the scan
      meets when none starts inside `pre`: it becomes `rep`, `pre` is kept,
      and the scan goes on after it. */
  lemma {:induction false} ReplaceAllAt(pre: string, pat: string, post: string, rep: string)
    requires |pat| > 0
    requires !Contains(pre + pat[..|pat| - 1], pat)
    ensures ReplaceAll(pre + pat + post, pat, rep) == pre + rep + ReplaceAll(post, pat, rep)
    decreases |pre|
  {
    var s := pre + pat + post;
    if |pre| == 0 {
      assert s == pat + post;
      ReplaceAllMatch(pat, post, rep);
    } else {
      var head := pre + pat[..|pat| - 1];
      assert head[1..] == pre[1..] + pat[..|pat| - 1];
      ReplaceAllAt(pre[1..], pat, post, rep);
      ReplaceAllAtStep(pre, pat, post, rep);
    }
  }

  /** The step of `ReplaceAllAt` past the first character of `pre`. */
  lemma ReplaceAllAtStep(pre: string, pat: string, post: string, rep: string)
    requires |pat| > 0 && |pre| > 0
    requires !StartsWith(pre + pat[..|pat| - 1], pat)
    requires ReplaceAll(pre[1..] + pat + post, pat, rep) == pre[1..] + rep + ReplaceAll(post, pat, rep)
    ensures ReplaceAll(pre + pat + post, pat, rep) == pre + rep + ReplaceAll(post, pat, rep)
  {
    var s := pre + pat + post;
    NoMatchAtHead(pre, pat, post);
    ReplaceAllSkip(s, pat, rep);
    var tail := ReplaceAll(post, pat, rep);
    assert [pre[0]] + (pre[1..] + rep + tail) == pre + rep + tail by {
      assert pre == [pre[0]] + pre[1..];
    }
  }

  lemma NoMatchAtHead(pre: string, pat: string, post: string)
    requires |pat| > 0 && |pre| > 0
    requires !StartsWith(pre + pat[..|pat| - 1], pat)
    ensures var s := pre + pat + post;
            |s| >= |pat| && s[..|pat|] != pat && s[1..] == pre[1..] + pat + post
  {
    var s := pre + pat + post;
    var head := pre + pat[..|pat| - 1];
    assert s[..|pat|] == head[..|pat|];
  }

  /** A text starting with the pattern: the replacement, then the rest scanned. */
  lemma ReplaceAllMatch(pat: string, post: string, rep: string)
    requires |pat| > 0
    ensures ReplaceAll(pat + post, pat, rep) == rep + ReplaceAll(post, pat, rep)
  {
    var s := pat + post;
    assert s[..|pat|] == pat;
    assert s[|pat|..] == post;
  }

  /** A text not starting with the pattern keeps its first character. */
  lemma ReplaceAllSkip(s: string, pat: string, rep: string)
    requires |pat| > 0 && |s| >= |pat| && s[..|pat|] != pat
    ensures ReplaceAll(s, pat, rep) == [s[0]] + ReplaceAll(s[1..], pat, rep)
  {
  }

  /** `s` with every `a` turned into `b`, character by character. */
  function MapChar(s: string, a: char, b: char): (r: string)
    ensures |r| == |s|
  {
    seq(|s|, i requires 0 <= i < |s| => if s[i] == a then b else s[i])
  }

  /** A one-character replacement is a character map: it keeps the length
      and every position, and leaves no `a` behind when `b != a`. */
  lemma {:induction false} ReplaceCharIsMap(s: string, a: char, b: char)
    ensures ReplaceAll(s, [a], [b]) == MapChar(s, a, b)
    decreases |s|
  {
    if |s| > 0 {
      ReplaceCharIsMap(s[1..], a, b);
      var m := MapChar(s[1..], a, b);
      if s[..1] == [a] {
        assert s[1..] == s[|[a]|..];
        assert MapChar(s, a, b) == [b] + m;
      } else {
        assert s[0] != a;
        assert MapChar(s, a, b) == [s[0]] + m;
      }
    }
  }

  /** Replacing a character by a text that does not hold it removes it. */
  lemma {:induction false} ReplaceCharRemoves(s: string, c: char, rep: string)
    requires c !in rep
    ensures c !in ReplaceAll(s, [c], rep)
    decreases |s|
  {
    if |s| > 0 {
      ReplaceCharRemoves(s[1..], c, rep);
      if s[..1] == [c] {
        assert s[1..] == s[|[c]|..];
      } else {
        assert s[0] != c;
      }
    }
  }

  /** Replacing never brings in a character that neither the text nor
      the replacement holds. */
  lemma {:induction false} ReplaceAllKeepsOut(s: string, pat: string, rep: string, c: char)
    requires c !in s && c !in rep
    ensures c !in ReplaceAll(s, pat, rep)
    decreases |s|
  {
    if |s| > 0 {
      if |pat| == 0 || (|s| >= |pat| && s[..|pat|] != pat) {
        ReplaceAllKeepsOut(s[1..], pat, rep, c);
      } else if |s| >= |pat| {
        ReplaceAllKeepsOut(s[|pat|..], pat, rep, c);
      }
    }
  }

  /** Replacing a pattern without `c` by a replacement without `c` keeps
      the number of `c`s. */
  lemma {:induction false} ReplaceAllKeepsCount(s: string, pat: string, rep: string, c: char)
    requires |pat| > 0 && c !in pat && c !in rep
    ensures multiset(ReplaceAll(s, pat, rep))[c] == multiset(s)[c]
    decreases |s|
  {
    if |s| < |pat| {
      assert ReplaceAll(s, pat, rep) == s;
    } else if s[..|pat|] == pat {
      ReplaceAllKeepsCount(s[|pat|..], pat, rep, c);
      KeepsCountMatch(s, pat, rep, c);
    } else {
      ReplaceAllKeepsCount(s[1..], pat, rep, c);
      KeepsCountSkip(s, pat, rep, c);
    }
  }

  lemma KeepsCountMatch(s: string, pat: string, rep: string, c: char)
    requires |pat| > 0 && c !in pat && c !in rep && |s| >= |pat| && s[..|pat|] == pat
    requires multiset(ReplaceAll(s[|pat|..], pat, rep))[c] == multiset(s[|pat|..])[c]
    ensures multiset(ReplaceAll(s, pat, rep))[c] == multiset(s)[c]
  {
    var rest := s[|pat|..];
    assert s == pat + rest;
    ReplaceAllMatch(pat, rest, rep);
    CountOfConcat(pat, rest, c);
    CountOfConcat(rep, ReplaceAll(rest, pat, rep), c);
  }

  lemma KeepsCountSkip(s: string, pat: string, rep: string, c: char)
    requires |pat| > 0 && |s| >= |pat| && s[..|pat|] != pat
    requires multiset(ReplaceAll(s[1..], pat, rep))[c] == multiset(s[1..])[c]
    ensures multiset(ReplaceAll(s, pat, rep))[c] == multiset(s)[c]
  {
    ReplaceAllSkip(s, pat, rep);
    assert s == [s[0]] + s[1..];
    CountOfConcat([s[0]], s[1..], c);
    CountOfConcat([s[0]], ReplaceAll(s[1..], pat, rep), c);
  }

  lemma CountOfConcat(a: string, b: string, c: char)
    ensures multiset(a + b)[c] == multiset(a)[c] + multiset(b)[c]
  {
    assert multiset(a + b) == multiset(a) + multiset(b);
  }

  /** `s.split(sep)`; Python rejects an empty separator. */
  function Split(s: string, sep: string): (parts: seq<string>)
    requires |sep| > 0
    ensures |parts| >= 1
    ensures parts[0] <= s
    ensures forall i :: 0 <= i < |parts| ==> !Contains(parts[i], sep)
    decreases |s|
  {
    if |s| < |sep| then
      if Contains(s, sep) then ContainsNeedsRoom(s, sep); [s] else [s]
    else if s[..|sep|] == sep then
      assert !Contains([], sep);
      [[]] + Split(s[|sep|..], sep)
    else
      var rest := Split(s[1..], sep);
      HeadKeepsPatternOut(s, rest[0], sep);
      [[s[0]] + rest[0]] + rest[1..]
  }

  /** Growing a pattern-free prefix of `s[1..]` by `s[0]` keeps it pattern
      free when `s` itself does not start with the pattern. */
  lemma HeadKeepsPatternOut(s: string, t: string, sep: string)
    requires |s| > 0 && |sep| > 0
    requires !StartsWith(s, sep)
    requires t <= s[1..] && !Contains(t, sep)
    ensures !Contains([s[0]] + t, sep)
  {
    var u := [s[0]] + t;
    assert u[1..] == t;
    assert u <= s;
  }

  /** `sep.join(parts)`. */
  function Join(parts: seq<string>, sep: string): string
    decreases |parts|
  {
    if |parts| == 0 then []
    else if |parts| == 1 then parts[0]
    else parts[0] + sep + Join(parts[1..], sep)
  }

  lemma JoinGrowsHead(x: string, t: seq<string>, sep: string)
    requires |t| >= 1
    ensures Join([x + t[0]] + t[1..], sep) == x + Join(t, sep)
  {
    var u := [x + t[0]] + t[1..];
    assert u[1..] == t[1..];
  }

  /** The reference definition of `replace`: cut at every occurrence and
      glue the pieces back with the replacement. */
  lemma {:induction false} ReplaceAllIsSplitJoin(s: string, pat: string, rep: string)
    requires |pat| > 0
    ensures ReplaceAll(s, pat, rep) == Join(Split(s, pat), rep)
    decreases |s|
  {
    if |s| < |pat| {
    } else if s[..|pat|] == pat {
      ReplaceAllIsSplitJoin(s[|pat|..], pat, rep);
      var t := Split(s[|pat|..], pat);
      var u: seq<string> := [[]] + t;
      assert u[1..] == t;
      assert Join(u, rep) == [] + rep + Join(t, rep);
    } else {
      ReplaceAllIsSplitJoin(s[1..], pat, rep);
      JoinGrowsHead([s[0]], Split(s[1..], pat), rep);
    }
  }

  /** Joining the pieces of a split with the separator restores the text. */
  lemma SplitJoinRoundTrip(s: string, sep: string)
    requires |sep| > 0
    ensures Join(Split(s, sep), sep) == s
  {
    ReplaceAllIsSplitJoin(s, sep, sep);
    ReplaceAllSelf(s, sep);
  }

  lemma {:induction false} SplitWithoutSeparator(x: string, sep: string)
    requires |sep| > 0 && sep[0] !in x
    ensures Split(x, sep) == [x]
    decreases |x|
  {
    if |x| >= |sep| {
      assert x[0] != sep[0];
      SplitWithoutSeparator(x[1..], sep);
      assert [x[0]] + x[1..] == x;
    }
  }

  lemma {:induction false} SplitAfterPiece(x: string, y: string, sep: string)
    requires |sep| > 0 && sep[0] !in x
    ensures Split(x + sep + y, sep) == [x] + Split(y, sep)
    decreases |x|
  {
    var s := x + sep + y;
    if |x| == 0 {
      assert s == sep + y;
      assert s[..|sep|] == sep && s[|sep|..] == y;
    } else {
      assert s[0] == x[0] != sep[0];
      assert s[..|sep|] != sep;
      assert s[1..] == x[1..] + sep + y;
      SplitAfterPiece(x[1..], y, sep);
      assert [x[0]] + x[1..] == x;
    }
  }

  /** Splitting a join gives the pieces back, provided no piece holds the
      separator's first character. */
  lemma {:induction false} JoinSplitRoundTrip(parts: seq<string>, sep: string)
    requires |sep| > 0 && |parts| >= 1
    requires forall i :: 0 <= i < |parts| ==> sep[0] !in parts[i]
    ensures Split(Join(parts, sep), sep) == parts
    decreases |parts|
  {
    if |parts| == 1 {
      SplitWithoutSeparator(parts[0], sep);
    } else {
      JoinSplitRoundTrip(parts[1..], sep);
      SplitAfterPiece(parts[0], Join(parts[1..], sep), sep);
      assert [parts[0]] + parts[1..] == parts;
    }
  }

  /** The text splits into several pieces exactly when it holds the separator. */
  lemma {:induction false} SplitFindsSeparator(s: string, sep: string)
    requires |sep| > 0
    ensures |Split(s, sep)| >= 2 <==> Contains(s, sep)
    decreases |s|
  {
    if |s| < |sep| {
      if Contains(s, sep) {
        ContainsNeedsRoom(s, sep);
      }
    } else if s[..|sep|] == sep {
      assert StartsWith(s, sep);
    } else {
      SplitFindsSeparator(s[1..], sep);
      assert !StartsWith(s, sep);
    }
  }

  /** Joining one more piece appends the separator and that piece. */
  lemma {:induction false} JoinSnoc(parts: seq<string>, x: string, sep: string)
    requires |parts| >= 1
    ensures Join(parts + [x], sep) == Join(parts, sep) + sep + x
    decreases |parts|
  {
    if |parts| == 1 {
      assert (parts + [x])[1..] == [x];
    } else {
      assert (parts + [x])[1..] == parts[1..] + [x];
      JoinSnoc(parts[1..], x, sep);
    }
  }

  /** Splitting on one character gives one piece more than it has occurrences. */
  lemma {:induction false} SplitCharCount(s: string, c: char)
    ensures |Split(s, [c])| == multiset(s)[c] + 1
    decreases |s|
  {
    if |s| > 0 {
      assert s == [s[0]] + s[1..];
      SplitCharCount(s[1..], c);
      if s[..1] == [c] {
        assert s[|[c]|..] == s[1..];
      } else {
        assert s[0] != c;
      }
    }
  }

  /** `t` is non-empty and ends with `c`. */
  predicate EndsWithChar(t: string, c: char) {
    |t| > 0 && t[|t| - 1] == c
  }

  function Last<T>(xs: seq<T>): T
    requires |xs| > 0
  {
    xs[|xs| - 1]
  }

  /** The last piece of a split ends the text: when the text ends with a
      character of no separator occurrence, the last piece keeps it. */
  lemma {:induction false} SplitLastKeepsEnd(s: string, sep: string)
    requires |sep| > 0 && |s| > 0 && s[|s| - 1] !in sep
    ensures EndsWithChar(Last(Split(s, sep)), s[|s| - 1])
    decreases |s|
  {
    var c := s[|s| - 1];
    if |s| < |sep| {
      assert Split(s, sep) == [s];
    } else if s[..|sep|] == sep {
      var s' := s[|sep|..];
      assert |s'| > 0;
      assert s'[|s'| - 1] == c;
      SplitLastKeepsEnd(s', sep);
      var t := Split(s', sep);
      assert Split(s, sep) == [[]] + t;
      assert Last(Split(s, sep)) == Last(t);
    } else {
      var s' := s[1..];
      var t := Split(s', sep);
      assert Split(s, sep) == [[s[0]] + t[0]] + t[1..];
      if |s'| == 0 {
        assert t == [[]];
        assert [s[0]] + t[0] == [s[0]];
      } else {
        assert s'[|s'| - 1] == c;
        SplitLastKeepsEnd(s', sep);
        if |t| > 1 {
          assert Last(Split(s, sep)) == Last(t);
        } else {
          assert Last(Split(s, sep)) == [s[0]] + t[0];
        }
      }
    }
  }

  /** A decimal digit. */
  predicate IsDigit(c: char) {
    '0' <= c <= '9'
  }

  function DigitChar(d: nat): (c: char)
    requires d < 10
    ensures IsDigit(c)
  {
    "0123456789"[d]
  }

  /** `str(n)` for a natural number: its decimal digits, no leading zero. */
  function NatToString(n: nat): (r: string)
    ensures |r| > 0
    ensures forall i :: 0 <= i < |r| ==> IsDigit(r[i])
    decreases n
  {
    if n < 10 then [DigitChar(n)] else NatToString(n / 10) + [DigitChar(n % 10)]
  }

  /** The value of a string of decimal digits. */
  function DigitsValue(s: string): nat
    requires forall i :: 0 <= i < |s| ==> IsDigit(s[i])
    decreases |s|
  {
    if |s| == 0 then 0
    else
      assert IsDigit(s[|s| - 1]);
      DigitsValue(s[..|s| - 1]) * 10 + (s[|s| - 1] as int - '0' as int)
  }

  /** `int(s)` on the strings a device reports as array lengths. */
  function ParseNat(s: string): (r: Result<nat>)
    ensures r.Ok? <==> |s| > 0 && forall i :: 0 <= i < |s| ==> IsDigit(s[i])
  {
    if |s| > 0 && forall i :: 0 <= i < |s| ==> IsDigit(s[i]) then Ok(DigitsValue(s))
    else Err(NotAnInteger(s))
  }

  /** `int(str(n)) == n`. */
  lemma {:induction false} ParseNatOfString(n: nat)
    ensures ParseNat(NatToString(n)) == Ok(n)
    decreases n
  {
    var s := NatToString(n);
    if n >= 10 {
      ParseNatOfString(n / 10);
      assert s[..|s| - 1] == NatToString(n / 10);
      assert s[|s| - 1] == DigitChar(n % 10);
    }
    assert DigitsValue(s) == n;
  }
}
