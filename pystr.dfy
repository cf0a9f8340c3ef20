/**
 * The Python string operations the script relies on, over `seq<char>`:
 * `str.rstrip()`, `str.lstrip()`, `str.replace(c, "")`, `str.split(sep)` and `str.split()`.
 */
module PyStr {

  /** The characters in the ASCII range for which Python's `str.isspace()` holds:
      tab, line feed, vertical tab, form feed, carriage return, the four
      separator controls 0x1C..0x1F, and space. */
  predicate IsSpace(c: char)
  {
    ('\t' <= c <= '\r') || ('\U{1C}' <= c <= ' ')
  }

  predicate AllSpace(s: string)
  {
    forall i :: 0 <= i < |s| ==> IsSpace(s[i])
  }

  predicate NoSpace(s: string)
  {
    forall i :: 0 <= i < |s| ==> !IsSpace(s[i])
  }

  /** `s.rstrip()`: the longest prefix of `s` that does not end in whitespace. */
  function RStrip(s: string): (r: string)
    ensures r <= s
    ensures AllSpace(s[|r|..])
    ensures r == [] || !IsSpace(r[|r| - 1])
  {
    if s != [] && IsSpace(s[|s| - 1]) then RStrip(s[..|s| - 1]) else s
  }

  /** `s.lstrip()`: the longest suffix of `s` that does not start with whitespace. */
  function LStrip(s: string): (r: string)
    ensures |r| <= |s| && r == s[|s| - |r|..]
    ensures AllSpace(s[..|s| - |r|])
    ensures r == [] || !IsSpace(r[0])
  {
    if s != [] && IsSpace(s[0]) then LStrip(s[1..]) else s
  }

  /** Left-stripping only looks at the front once something visible remains. */
  lemma {:induction false} LStripAppend(s: string, w: string)
    requires LStrip(s) != []
    ensures LStrip(s + w) == LStrip(s) + w
  {
    if s != [] && IsSpace(s[0]) {
      assert (s + w)[1..] == s[1..] + w;
      LStripAppend(s[1..], w);
    }
  }

  /** `s.replace(c, "")`: every occurrence of `c` deleted, every other character kept. */
  function Remove(s: string, c: char): (r: string)
    ensures c !in r
    ensures forall d :: d in r ==> d in s
  {
    if s == [] then []
    else
      assert s == [s[0]] + s[1..];
      (if s[0] == c then [] else [s[0]]) + Remove(s[1..], c)
  }

  /** Deleting a character keeps every other character as often as it occurs. */
  lemma {:induction false} RemoveCounts(s: string, c: char)
    ensures forall d {:trigger multiset(Remove(s, c))[d]} :: d != c ==> multiset(Remove(s, c))[d] == multiset(s)[d]
    ensures |Remove(s, c)| == |s| - multiset(s)[c]
  {
    if s != [] {
      assert s == [s[0]] + s[1..];
      RemoveCounts(s[1..], c);
    }
  }

  /** Deleting a character is done piecewise: it keeps the order of what remains. */
  lemma {:induction false} RemoveAppend(a: string, b: string, c: char)
    ensures Remove(a + b, c) == Remove(a, c) + Remove(b, c)
  {
    if a == [] {
      assert a + b == b;
    } else {
      var head: string := if a[0] == c then [] else [a[0]];
      assert (a + b)[0] == a[0] && (a + b)[1..] == a[1..] + b;
      assert Remove(a + b, c) == head + Remove(a[1..] + b, c);
      RemoveAppend(a[1..], b, c);
      assert Remove(a, c) == head + Remove(a[1..], c);
    }
  }

  /** Deleting a character that does not occur changes nothing. */
  lemma {:induction false} RemoveAbsent(s: string, c: char)
    requires c !in s
    ensures Remove(s, c) == s
  {
    if s != [] {
      RemoveAbsent(s[1..], c);
    }
  }

  /** `ps` joined with `sep` between consecutive elements (Python's `sep.join(ps)`). */
  function Join(ps: seq<string>, sep: string): string
  {
    if ps == [] then []
    else if |ps| == 1 then ps[0]
    else ps[0] + sep + Join(ps[1..], sep)
  }

  /** `s.split(sep)` for a one-character separator: the maximal runs of `s`
      that do not contain `sep`; there is always at least one. */
  function Split(s: string, sep: char): (r: seq<string>)
    ensures |r| >= 1
    ensures forall i :: 0 <= i < |r| ==> sep !in r[i]
  {
    if s == [] then [[]]
    else
      assert s == [s[0]] + s[1..];
      var rest := Split(s[1..], sep);
      if s[0] == sep then [[]] + rest
      else [[s[0]] + rest[0]] + rest[1..]
  }

  /** There is one more piece than there are separators. */
  lemma {:induction false} SplitCount(s: string, sep: char)
    ensures |Split(s, sep)| == multiset(s)[sep] + 1
  {
    if s != [] {
      assert s == [s[0]] + s[1..];
      SplitCount(s[1..], sep);
    }
  }

  /** Joining the pieces with the separator gives back the original string. */
  lemma {:induction false} JoinSplit(s: string, sep: char)
    ensures Join(Split(s, sep), [sep]) == s
  {
    if s != [] {
      var rest := Split(s[1..], sep);
      JoinSplit(s[1..], sep);
      if s[0] != sep && |rest| > 1 {
        assert Join(Split(s, sep), [sep]) == [s[0]] + rest[0] + [sep] + Join(rest[1..], [sep]);
      }
    }
  }

  /** Conversely, splitting a join of separator-free pieces gives the pieces back,
      so `Split` is the only way to cut `s` into separator-free pieces. */
  lemma {:induction false} SplitJoin(ps: seq<string>, sep: char)
    requires ps != []
    requires forall i :: 0 <= i < |ps| ==> sep !in ps[i]
    ensures Split(Join(ps, [sep]), sep) == ps
  {
    if |ps| == 1 {
      SplitNoSep(ps[0], sep);
    } else {
      SplitJoin(ps[1..], sep);
      SplitAppend(ps[0], Join(ps[1..], [sep]), sep);
      SplitNoSep(ps[0], sep);
      assert ps == [ps[0]] + ps[1..];
    }
  }

  /** A string without the separator is a single piece. */
  lemma {:induction false} SplitNoSep(s: string, sep: char)
    requires sep !in s
    ensures Split(s, sep) == [s]
  {
    if s != [] {
      SplitNoSep(s[1..], sep);
      assert s == [s[0]] + s[1..];
    }
  }

  /** Cutting at one separator: the pieces of `a + sep + b` are those of `a`
      followed by those of `b`. */
  lemma {:induction false} SplitAppend(a: string, b: string, sep: char)
    ensures Split(a + [sep] + b, sep) == Split(a, sep) + Split(b, sep)
  {
    if a == [] {
      assert a + [sep] + b == [sep] + b;
      assert ([sep] + b)[1..] == b;
    } else {
      assert (a + [sep] + b)[1..] == a[1..] + [sep] + b;
      SplitAppend(a[1..], b, sep);
    }
  }

  /** The longest whitespace-free prefix of `s`. */
  function Word(s: string): (w: string)
    ensures w <= s && NoSpace(w)
    ensures |w| == |s| || IsSpace(s[|w|])
  {
    if s == [] || IsSpace(s[0]) then [] else [s[0]] + Word(s[1..])
  }

  /** `s.split()`: the maximal whitespace-free runs of `s`, in order. */
  function SplitWhitespace(s: string): (r: seq<string>)
    ensures forall i :: 0 <= i < |r| ==> r[i] != [] && NoSpace(r[i])
    decreases |s|
  {
    if s == [] then []
    else if IsSpace(s[0]) then SplitWhitespace(s[1..])
    else
      var w := Word(s);
      [w] + SplitWhitespace(s[|w|..])
  }

  /** Whitespace alone yields no token. */
  lemma {:induction false} SplitWhitespaceOfSpaces(s: string)
    requires AllSpace(s)
    ensures SplitWhitespace(s) == []
  {
    if s != [] {
      SplitWhitespaceOfSpaces(s[1..]);
    }
  }

  /** A non-empty whitespace-free string is one token. */
  lemma SplitWhitespaceOfWord(s: string)
    requires s != [] && NoSpace(s)
    ensures SplitWhitespace(s) == [s]
  {
    assert Word(s) == s;
  }

  /** The word of `a + c + b` for a whitespace character `c` lies inside `a`. */
  lemma {:induction false} WordBeforeSpace(a: string, c: char, b: string)
    requires IsSpace(c)
    ensures Word(a + [c] + b) == Word(a)
  {
    if a != [] && !IsSpace(a[0]) {
      assert (a + [c] + b)[1..] == a[1..] + [c] + b;
      WordBeforeSpace(a[1..], c, b);
    }
  }

  /** A whitespace character separates tokens: the tokens of `a + c + b` are
      those of `a` followed by those of `b`. With the two lemmas above this
      determines `SplitWhitespace` on every string. */
  lemma {:induction false} SplitWhitespaceAtSpace(a: string, c: char, b: string)
    requires IsSpace(c)
    ensures SplitWhitespace(a + [c] + b) == SplitWhitespace(a) + SplitWhitespace(b)
    decreases |a|
  {
    var s := a + [c] + b;
    if a == [] {
      assert s[1..] == b;
    } else if IsSpace(a[0]) {
      assert s[1..] == a[1..] + [c] + b;
      SplitWhitespaceAtSpace(a[1..], c, b);
    } else {
      var w := Word(s);
      WordBeforeSpace(a, c, b);
      assert s[|w|..] == a[|w|..] + [c] + b;
      SplitWhitespaceAtSpace(a[|w|..], c, b);
    }
  }

  /** Round trip: joining tokens with single spaces and splitting again gives the tokens. */
  lemma {:induction false} SplitWhitespaceJoin(ts: seq<string>)
    requires forall i :: 0 <= i < |ts| ==> ts[i] != [] && NoSpace(ts[i])
    ensures SplitWhitespace(Join(ts, " ")) == ts
  {
    if |ts| == 1 {
      SplitWhitespaceOfWord(ts[0]);
    } else if |ts| > 1 {
      SplitWhitespaceJoin(ts[1..]);
      SplitWhitespaceOfWord(ts[0]);
      SplitWhitespaceAtSpace(ts[0], ' ', Join(ts[1..], " "));
      assert ts == [ts[0]] + ts[1..];
    }
  }

  /** One left-to-right pass that writes a single space for each run of
      whitespace and copies every other character; `inRun` says whether the
      previous character was whitespace. */
  function Squeeze(s: string, inRun: bool): string
  {
    if s == [] then []
    else if IsSpace(s[0]) then (if inRun then [] else " ") + Squeeze(s[1..], true)
    else [s[0]] + Squeeze(s[1..], false)
  }

  /** `s` with whitespace stripped from both ends and every inner run of
      whitespace replaced by one space. */
  function Collapse(s: string): string
  {
    Squeeze(RStrip(LStrip(s)), false)
  }

  /** A visible run is copied unchanged and closes any whitespace run. */
  lemma {:induction false} SqueezeWord(a: string, b: string, inRun: bool)
    requires a != [] && NoSpace(a)
    ensures Squeeze(a + b, inRun) == a + Squeeze(b, false)
  {
    assert (a + b)[0] == a[0] && (a + b)[1..] == a[1..] + b;
    if |a| == 1 {
      assert a[1..] + b == b;
    } else {
      SqueezeWord(a[1..], b, false);
    }
  }

  /** Inside a whitespace run, the rest of the run writes nothing. */
  lemma {:induction false} SqueezeLStrip(s: string)
    ensures Squeeze(s, true) == Squeeze(LStrip(s), false)
  {
    if s != [] && IsSpace(s[0]) {
      SqueezeLStrip(s[1..]);
    }
  }

  /** Leading whitespace yields no token. */
  lemma {:induction false} SplitWhitespaceLStrip(s: string)
    ensures SplitWhitespace(LStrip(s)) == SplitWhitespace(s)
  {
    if s != [] && IsSpace(s[0]) {
      SplitWhitespaceLStrip(s[1..]);
    }
  }

  /** Trailing whitespace yields no token. */
  lemma {:induction false} SplitWhitespaceRStrip(t: string)
    ensures SplitWhitespace(RStrip(t)) == SplitWhitespace(t)
  {
    if t != [] && IsSpace(t[|t| - 1]) {
      var p := t[..|t| - 1];
      assert t == p + [t[|t| - 1]] + [];
      SplitWhitespaceAtSpace(p, t[|t| - 1], []);
      assert SplitWhitespace(p) + [] == SplitWhitespace(p);
      SplitWhitespaceRStrip(p);
    }
  }

  /** Left-stripping keeps a visible last character. */
  lemma {:induction false} LStripKeepsLast(s: string)
    requires s != [] && !IsSpace(s[|s| - 1])
    ensures LStrip(s) != [] && LStrip(s)[|LStrip(s)| - 1] == s[|s| - 1]
  {
    if IsSpace(s[0]) {
      LStripKeepsLast(s[1..]);
    }
  }

  /** A word and a whitespace character squeeze to the word and one space,
      and the whitespace run that follows is skipped. */
  lemma SqueezeGap(w: string, c: char, rest: string)
    requires w != [] && NoSpace(w) && IsSpace(c)
    ensures Squeeze(w + [c] + rest, false) == w + " " + Squeeze(LStrip(rest), false)
  {
    assert w + [c] + rest == w + ([c] + rest);
    SqueezeWord(w, [c] + rest, false);
    assert ([c] + rest)[1..] == rest;
    SqueezeLStrip(rest);
  }

  /** A word followed by whitespace is the first token; the rest follow. */
  lemma SplitWhitespaceGap(w: string, c: char, rest: string)
    requires w != [] && NoSpace(w) && IsSpace(c)
    ensures SplitWhitespace(w + [c] + rest) == [w] + SplitWhitespace(LStrip(rest))
  {
    SplitWhitespaceAtSpace(w, c, rest);
    SplitWhitespaceOfWord(w);
    SplitWhitespaceLStrip(rest);
  }

  /** On a string with no whitespace at either end, the one-pass squeeze and
      joining the tokens with single spaces agree. */
  lemma {:induction false} SqueezeTrimmed(u: string)
    requires u == [] || (!IsSpace(u[0]) && !IsSpace(u[|u| - 1]))
    ensures Squeeze(u, false) == Join(SplitWhitespace(u), " ")
    decreases |u|
  {
    if u != [] {
      var w := Word(u);
      if |w| == |u| {
        assert w == u;
        SplitWhitespaceOfWord(u);
        SqueezeWord(u, [], false);
        assert u + [] == u;
      } else {
        var rest := u[|w| + 1..];
        assert u == w + [u[|w|]] + rest;
        SqueezeGap(w, u[|w|], rest);
        SplitWhitespaceGap(w, u[|w|], rest);
        assert rest != [] && rest[|rest| - 1] == u[|u| - 1];
        LStripKeepsLast(rest);
        var v := LStrip(rest);
        assert |v| <= |rest| < |u|;
        assert v != [] && !IsSpace(v[0]) && !IsSpace(v[|v| - 1]);
        SqueezeTrimmed(v);
        var ts := SplitWhitespace(v);
        assert ts != [] && ([w] + ts)[1..] == ts;
      }
    }
  }

  /** `" ".join(s.split())` is `s` stripped at both ends with every inner
      whitespace run collapsed to one space. */
  lemma {:induction false} SplitWhitespaceCollapse(s: string)
    ensures Join(SplitWhitespace(s), " ") == Collapse(s)
  {
    SplitWhitespaceLStrip(s);
    SplitWhitespaceRStrip(LStrip(s));
    var t := LStrip(s);
    var u := RStrip(t);
    assert u != [] ==> u[0] == t[0];
    SqueezeTrimmed(u);
  }
}
