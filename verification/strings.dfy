/** The pieces of Go's `strings` package the program relies on: `Split` on a
    one-character separator, `Join`, `HasPrefix`, and `TrimSpace` with the
    white-space table of `unicode.IsSpace`. */
module Strings {

  /** Position of the first occurrence of `c` in `s`. */
  function IndexOf(s: string, c: char): (i: nat)
    requires c in s
    ensures i < |s| && s[i] == c
    ensures c !in s[..i]
  {
    if s[0] == c then 0
    else
      var j := IndexOf(s[1..], c);
      assert s[..j + 1] == [s[0]] + s[1..][..j];
      j + 1
  }

  /** Go's `strings.Split(s, string(sep))`: the fields between separators,
      always at least one (the empty string splits into one empty field). */
  function Split(s: string, sep: char): (r: seq<string>)
    ensures |r| >= 1
    ensures forall i :: 0 <= i < |r| ==> sep !in r[i]
    decreases |s|
  {
    if sep !in s then [s]
    else
      var i := IndexOf(s, sep);
      [s[..i]] + Split(s[i + 1..], sep)
  }

  /** Go's `strings.Join(parts, sep)`. */
  function Join(parts: seq<string>, sep: string): string
  {
    if |parts| == 0 then ""
    else if |parts| == 1 then parts[0]
    else parts[0] + sep + Join(parts[1..], sep)
  }

  predicate HasPrefix(s: string, prefix: string) {
    |prefix| <= |s| && s[..|prefix|] == prefix
  }

  predicate HasSuffix(s: string, suffix: string) {
    |suffix| <= |s| && s[|s| - |suffix|..] == suffix
  }

  /** Joining the fields of a split restores the original string. */
  lemma {:induction false} JoinSplit(s: string, sep: char)
    ensures Join(Split(s, sep), [sep]) == s
    decreases |s|
  {
    if sep in s {
      var i := IndexOf(s, sep);
      var rest := s[i + 1..];
      JoinSplit(rest, sep);
      assert Split(s, sep) == [s[..i]] + Split(rest, sep);
      assert s == s[..i] + [sep] + rest;
    }
  }

  /** Splitting a join of separator-free fields gives the fields back. */
  lemma {:induction false} SplitJoin(parts: seq<string>, sep: char)
    requires |parts| >= 1
    requires forall i :: 0 <= i < |parts| ==> sep !in parts[i]
    ensures Split(Join(parts, [sep]), sep) == parts
  {
    if |parts| > 1 {
      SplitCons(parts[0], sep, Join(parts[1..], [sep]));
      SplitJoin(parts[1..], sep);
      assert parts == [parts[0]] + parts[1..];
    }
  }

  /** A separator-free field followed by the separator splits off first. */
  lemma SplitCons(a: string, sep: char, rest: string)
    requires sep !in a
    ensures Split(a + [sep] + rest, sep) == [a] + Split(rest, sep)
  {
    var s := a + [sep] + rest;
    assert s[|a|] == sep;
    assert s[..|a|] == a;
    assert IndexOf(s, sep) == |a|;
    assert s[|a| + 1..] == rest;
  }

  /** Appending one more field at the end of a string appends one more field
      to its split. */
  lemma {:induction false} SplitAppend(a: string, b: string, sep: char)
    requires sep !in b
    ensures Split(a + [sep] + b, sep) == Split(a, sep) + [b]
    decreases |a|
  {
    if sep !in a {
      SplitCons(a, sep, b);
    } else {
      var i := IndexOf(a, sep);
      CutAt(a, i);
      SplitAppend(a[i + 1..], b, sep);
      SplitAppendStep(a, a[..i], a[i + 1..], b, sep);
    }
  }

  /** The inductive step of `SplitAppend`: the first field splits off both
      sides alike. */
  lemma SplitAppendStep(a: string, head: string, tail: string, b: string, sep: char)
    requires a == head + [sep] + tail && sep !in head
    requires Split(tail + [sep] + b, sep) == Split(tail, sep) + [b]
    ensures Split(a + [sep] + b, sep) == Split(a, sep) + [b]
  {
    Regroup(head, sep, tail, b);
    SplitCons(head, sep, tail);
    SplitCons(head, sep, tail + [sep] + b);
    assert [head] + (Split(tail, sep) + [b]) == ([head] + Split(tail, sep)) + [b];
  }

  /** A string around its `i`th character. */
  lemma CutAt(a: string, i: nat)
    requires i < |a|
    ensures a == a[..i] + [a[i]] + a[i + 1..]
  {
  }

  lemma Regroup(head: string, sep: char, tail: string, b: string)
    ensures head + [sep] + tail + [sep] + b == head + [sep] + (tail + [sep] + b)
  {
  }

  /** Appending one more part to a join appends the separator and the part. */
  lemma {:induction false} JoinAppend(parts: seq<string>, x: string, sep: string)
    requires |parts| >= 1
    ensures Join(parts + [x], sep) == Join(parts, sep) + sep + x
  {
    if |parts| > 1 {
      assert (parts + [x])[1..] == parts[1..] + [x];
      JoinAppend(parts[1..], x, sep);
    }
  }

  /** Go's `unicode.IsSpace`: the Latin-1 white space characters plus the
      characters of the Unicode White_Space property above Latin-1. */
  predicate IsSpace(c: char) {
    || c == '\U{0009}' || c == '\U{000A}' || c == '\U{000B}' || c == '\U{000C}'
    || c == '\U{000D}' || c == '\U{0020}' || c == '\U{0085}' || c == '\U{00A0}'
    || c == '\U{1680}' || ('\U{2000}' <= c <= '\U{200A}')
    || c == '\U{2028}' || c == '\U{2029}' || c == '\U{202F}' || c == '\U{205F}'
    || c == '\U{3000}'
  }

  predicate AllSpace(s: string) {
    forall k :: 0 <= k < |s| ==> IsSpace(s[k])
  }

  /** `s` without its leading white space. */
  function TrimLeft(s: string): (r: string)
    ensures |r| <= |s|
    ensures r != [] ==> !IsSpace(r[0])
    decreases |s|
  {
    if s != [] && IsSpace(s[0]) then TrimLeft(s[1..]) else s
  }

  /** `s` without its trailing white space. */
  function TrimRight(s: string): (r: string)
    ensures |r| <= |s|
    ensures r != [] ==> !IsSpace(r[|r| - 1])
    decreases |s|
  {
    if s != [] && IsSpace(s[|s| - 1]) then TrimRight(s[..|s| - 1]) else s
  }

  /** Trimming on the right keeps a prefix. */
  lemma {:induction false} TrimRightIsPrefix(s: string)
    ensures TrimRight(s) == s[..|TrimRight(s)|]
    decreases |s|
  {
    if s != [] && IsSpace(s[|s| - 1]) {
      TrimRightIsPrefix(s[..|s| - 1]);
    }
  }

  /** Go's `strings.TrimSpace`: drop leading and trailing white space. */
  function TrimSpace(s: string): (r: string)
    ensures |r| <= |s|
    ensures r != [] ==> !IsSpace(r[0]) && !IsSpace(r[|r| - 1])
    ensures r == [] <==> AllSpace(s)
  {
    var l := TrimLeft(s);
    var r := TrimRight(l);
    TrimLeftBlank(s);
    if l != [] then
      TrimRightKeepsFirst(l);
      TrimRightIsPrefix(l);
      assert r[0] == l[0];
      r
    else r
  }

  /** Trimming the left leaves nothing exactly when all is white space. */
  lemma {:induction false} TrimLeftBlank(s: string)
    ensures TrimLeft(s) == [] <==> AllSpace(s)
    decreases |s|
  {
    if s != [] && IsSpace(s[0]) {
      TrimLeftBlank(s[1..]);
      assert AllSpace(s) <==> AllSpace(s[1..]) by {
        if AllSpace(s[1..]) {
          forall k | 0 <= k < |s| ensures IsSpace(s[k]) {
            if k > 0 { assert s[k] == s[1..][k - 1]; }
          }
        }
      }
    }
  }

  /** A string that starts with another character keeps it when trimmed on
      the right. */
  lemma {:induction false} TrimRightKeepsFirst(s: string)
    requires s != [] && !IsSpace(s[0])
    ensures TrimRight(s) != []
    decreases |s|
  {
    if IsSpace(s[|s| - 1]) {
      assert |s| > 1;
      TrimRightKeepsFirst(s[..|s| - 1]);
    }
  }

  /** Leading white space before a text that does not start with white
      space is exactly what `TrimLeft` drops. */
  lemma {:induction false} TrimLeftPadded(p: string, t: string)
    requires AllSpace(p)
    requires t != [] ==> !IsSpace(t[0])
    ensures TrimLeft(p + t) == t
    decreases |p|
  {
    if p == [] {
      assert p + t == t;
    } else {
      assert (p + t)[0] == p[0];
      assert (p + t)[1..] == p[1..] + t;
      assert AllSpace(p[1..]) by {
        forall k | 0 <= k < |p[1..]| ensures IsSpace(p[1..][k]) {
          assert p[1..][k] == p[k + 1];
        }
      }
      TrimLeftPadded(p[1..], t);
    }
  }

  lemma {:induction false} TrimRightPadded(t: string, q: string)
    requires AllSpace(q)
    requires t != [] ==> !IsSpace(t[|t| - 1])
    ensures TrimRight(t + q) == t
    decreases |q|
  {
    if q == [] {
      assert t + q == t;
    } else {
      var q' := q[..|q| - 1];
      assert (t + q)[|t + q| - 1] == q[|q| - 1];
      assert (t + q)[..|t + q| - 1] == t + q';
      assert AllSpace(q') by {
        forall k | 0 <= k < |q'| ensures IsSpace(q'[k]) {
          assert q'[k] == q[k];
        }
      }
      TrimRightPadded(t, q');
    }
  }

  /** TrimSpace recovers any text from between two runs of white space, so
      long as the text itself neither starts nor ends with white space. */
  lemma TrimSpacePadded(p: string, core: string, q: string)
    requires AllSpace(p) && AllSpace(q)
    requires core != [] ==> !IsSpace(core[0]) && !IsSpace(core[|core| - 1])
    ensures TrimSpace(p + core + q) == core
  {
    if core == [] {
      var x := p + core + q;
      assert AllSpace(x) by {
        forall k | 0 <= k < |x| ensures IsSpace(x[k]) {
          if k < |p| { assert x[k] == p[k]; } else { assert x[k] == q[k - |p|]; }
        }
      }
    } else {
      assert p + core + q == p + (core + q);
      assert (core + q)[0] == core[0];
      TrimLeftPadded(p, core + q);
      TrimRightPadded(core, q);
    }
  }

  /** Trimming twice is trimming once. */
  lemma TrimSpaceIdempotent(s: string)
    ensures TrimSpace(TrimSpace(s)) == TrimSpace(s)
  {
    var t := TrimSpace(s);
    TrimSpacePadded("", t, "");
    assert "" + t + "" == t;
  }
}
