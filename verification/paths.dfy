/** Go's slash-separated `path` package as the program uses it: `Clean`,
    `Join`, `Base`, `Dir` and `IsAbs` (which is also what `filepath.IsAbs`
    means on Unix). `Clean` is modelled as Go computes it: the path's
    elements are folded into a stack that drops empty and `.` elements and
    lets `..` cancel the element before it. */
module Paths {
  import opened Strings

  /** An absolute path starts at the root. */
  predicate IsAbs(p: string) {
    |p| > 0 && p[0] == '/'
  }

  /** An element that `Clean` keeps untouched and that names a direct child. */
  predicate IsPlainElement(e: string) {
    e != "" && e != "." && e != ".." && '/' !in e
  }

  /** What `Clean`'s stack can hold: non-empty, slash-free elements other
      than `.`, with any `..` only in a leading run, and none at all when
      the path is rooted (`/..` is `/`). */
  predicate IsCleanStack(rooted: bool, st: seq<string>) {
    && (forall i :: 0 <= i < |st| ==> st[i] != "" && st[i] != "." && '/' !in st[i])
    && (forall i, j :: 0 <= i < j < |st| && st[j] == ".." ==> st[i] == "..")
    && (rooted ==> ".." !in st)
  }

  /** One element of `Clean`'s scan. */
  function Step(rooted: bool, st: seq<string>, e: string): seq<string> {
    if e == "" || e == "." then st
    else if e == ".." then
      if |st| > 0 && st[|st| - 1] != ".." then st[..|st| - 1]
      else if rooted then st
      else st + [".."]
    else st + [e]
  }

  function Fold(rooted: bool, st: seq<string>, elems: seq<string>): seq<string>
    decreases |elems|
  {
    if elems == [] then st else Fold(rooted, Step(rooted, st, elems[0]), elems[1..])
  }

  function Render(rooted: bool, st: seq<string>): string {
    if st == [] then (if rooted then "/" else ".")
    else (if rooted then "/" else "") + Join(st, "/")
  }

  /** Go's `path.Clean`. */
  function Clean(p: string): string
  {
    if p == "" then "." else Render(IsAbs(p), Fold(IsAbs(p), [], Split(p, '/')))
  }

  /** Go's `path.Join`: the arguments from the first non-empty one on,
      joined with `/` and cleaned; all-empty arguments give "". */
  function JoinPath(elems: seq<string>): string {
    if elems == [] then ""
    else if elems[0] != "" then Clean(Join(elems, "/"))
    else JoinPath(elems[1..])
  }

  /** Position of the last occurrence of `c` in `s`. */
  function LastIndexOf(s: string, c: char): (i: nat)
    requires c in s
    ensures i < |s| && s[i] == c
    ensures forall k :: i < k < |s| ==> s[k] != c
  {
    if s[|s| - 1] == c then |s| - 1
    else
      var init := s[..|s| - 1];
      LastIndexOf(init, c)
  }

  /** `p` without the slashes it ends with. */
  function TrimTrailingSlashes(p: string): (r: string)
    ensures |r| <= |p| && r == p[..|r|]
    ensures r != "" ==> r[|r| - 1] != '/'
    ensures forall k :: |r| <= k < |p| ==> p[k] == '/'
  {
    if p != "" && p[|p| - 1] == '/' then TrimTrailingSlashes(p[..|p| - 1]) else p
  }

  /** Go's `path.Base`: the last element, trailing slashes ignored. */
  function Base(p: string): string {
    if p == "" then "."
    else
      var t := TrimTrailingSlashes(p);
      if t == "" then "/"
      else if '/' in t then t[LastIndexOf(t, '/') + 1..]
      else t
  }

  /** Go's `path.Dir`: everything up to the last slash, cleaned. */
  function Dir(p: string): string {
    Clean(if '/' in p then p[..LastIndexOf(p, '/') + 1] else "")
  }

  /** The clean path naming element `n` inside the clean directory `c`. */
  function Child(c: string, n: string): string {
    if c == "." then n else if c == "/" then "/" + n else c + "/" + n
  }

  /** A child's name is longer than its directory's, except inside `.`. */
  lemma ChildIsLonger(c: string, n: string)
    requires n != ""
    ensures |Child(c, n)| >= |n|
    ensures c != "." ==> |Child(c, n)| > |c|
  {
  }

  /** `k` is `p` itself or lies somewhere beneath it. */
  predicate IsWithin(k: string, p: string) {
    k == p || HasPrefix(k, p + "/")
  }

  // ---------------------------------------------------------------------
  // Facts about Clean's fold

  lemma {:induction false} FoldAppend(rooted: bool, st: seq<string>, xs: seq<string>, y: string)
    ensures Fold(rooted, st, xs + [y]) == Step(rooted, Fold(rooted, st, xs), y)
    decreases |xs|
  {
    if xs != [] {
      assert (xs + [y])[1..] == xs[1..] + [y];
      FoldAppend(rooted, Step(rooted, st, xs[0]), xs[1..], y);
    } else {
      assert ([] + [y])[1..] == [];
    }
  }

  lemma StepKeepsCleanStack(rooted: bool, st: seq<string>, e: string)
    requires IsCleanStack(rooted, st) && '/' !in e
    ensures IsCleanStack(rooted, Step(rooted, st, e))
  {
    if e == ".." && !(|st| > 0 && st[|st| - 1] != "..") && !rooted {
      var st' := st + [".."];
      forall i, j | 0 <= i < j < |st'| && st'[j] == ".." ensures st'[i] == ".." {
        if j == |st| {
          assert st[|st| - 1] == "..";
        }
      }
    }
  }

  lemma {:induction false} FoldKeepsCleanStack(rooted: bool, st: seq<string>, elems: seq<string>)
    requires IsCleanStack(rooted, st)
    requires forall i :: 0 <= i < |elems| ==> '/' !in elems[i]
    ensures IsCleanStack(rooted, Fold(rooted, st, elems))
    decreases |elems|
  {
    if elems != [] {
      StepKeepsCleanStack(rooted, st, elems[0]);
      FoldKeepsCleanStack(rooted, Step(rooted, st, elems[0]), elems[1..]);
    }
  }

  /** The stack `Clean` computes for `p` (non-empty). */
  lemma CleanStack(p: string)
    requires p != ""
    ensures IsCleanStack(IsAbs(p), Fold(IsAbs(p), [], Split(p, '/')))
  {
    FoldKeepsCleanStack(IsAbs(p), [], Split(p, '/'));
  }

  /** Folding an already clean stack leaves it as it is. */
  lemma {:induction false} FoldCleanStack(rooted: bool, st: seq<string>)
    requires IsCleanStack(rooted, st)
    ensures Fold(rooted, [], st) == st
    decreases |st|
  {
    if st != [] {
      var init := st[..|st| - 1];
      var last := st[|st| - 1];
      assert st == init + [last];
      CleanStackInit(rooted, st);
      FoldCleanStack(rooted, init);
      FoldAppend(rooted, [], init, last);
      StepOntoCleanStack(rooted, init, last);
    }
  }

  lemma CleanStackInit(rooted: bool, st: seq<string>)
    requires IsCleanStack(rooted, st) && st != []
    ensures IsCleanStack(rooted, st[..|st| - 1])
  {
  }

  /** The last element of a clean stack is what `Step` pushes onto the rest. */
  lemma StepOntoCleanStack(rooted: bool, init: seq<string>, last: string)
    requires IsCleanStack(rooted, init + [last])
    ensures Step(rooted, init, last) == init + [last]
  {
    var st := init + [last];
    assert st[|st| - 1] == last;
    if last == ".." && |init| > 0 {
      assert st[|init| - 1] == "..";
    }
  }

  lemma RenderRooted(rooted: bool, st: seq<string>)
    requires IsCleanStack(rooted, st)
    ensures IsAbs(Render(rooted, st)) == rooted
  {
    if st != [] && !rooted {
      JoinHead(st);
      assert Render(rooted, st) == Join(st, "/");
    }
  }

  /** A join of a clean stack is non-empty and starts with the first element. */
  lemma JoinHead(st: seq<string>)
    requires |st| >= 1 && st[0] != ""
    ensures |Join(st, "/")| >= |st[0]| && Join(st, "/")[..|st[0]|] == st[0]
  {
    if |st| > 1 {
      assert Join(st, "/") == st[0] + ("/" + Join(st[1..], "/"));
    }
  }

  lemma CleanNonEmpty(p: string)
    ensures Clean(p) != ""
  {
    if p != "" {
      var st := Fold(IsAbs(p), [], Split(p, '/'));
      CleanStack(p);
      if st != [] {
        JoinHead(st);
      }
    }
  }

  /** Splitting what Render produced gives back the stack, behind an empty
      first element when rooted. */
  lemma SplitRender(rooted: bool, st: seq<string>)
    requires IsCleanStack(rooted, st) && st != []
    ensures Split(Render(rooted, st), '/') == (if rooted then [""] else []) + st
  {
    if rooted {
      var parts := [""] + st;
      assert parts[1..] == st;
      assert Join(parts, "/") == "" + "/" + Join(st, "/");
      assert "" + "/" + Join(st, "/") == "/" + Join(st, "/");
      assert forall i :: 0 <= i < |parts| ==> '/' !in parts[i] by {
        forall i | 0 <= i < |parts| ensures '/' !in parts[i] {
          if i > 0 { assert parts[i] == st[i - 1]; }
        }
      }
      SplitJoin(parts, '/');
    } else {
      assert Render(rooted, st) == Join(st, "/");
      SplitJoin(st, '/');
    }
  }

  /** Cleaning what Render produced from a clean stack changes nothing. */
  lemma CleanRender(rooted: bool, st: seq<string>)
    requires IsCleanStack(rooted, st)
    ensures Clean(Render(rooted, st)) == Render(rooted, st)
  {
    if st == [] {
      if rooted { CleanRoot(); } else { CleanDot(); }
    } else {
      CleanRenderNonEmpty(rooted, st);
    }
  }

  lemma CleanRoot()
    ensures Clean("/") == "/"
  {
    assert "/" == "" + ['/'] + "";
    SplitAppend("", "", '/');
    assert Split("/", '/') == ["", ""];
    assert Fold(true, [], ["", ""]) == Fold(true, [], [""]) == Fold(true, [], []) == [];
  }

  lemma CleanDot()
    ensures Clean(".") == "."
  {
    assert Split(".", '/') == ["."];
    assert Fold(false, [], ["."]) == Fold(false, [], []) == [];
  }

  lemma CleanRenderNonEmpty(rooted: bool, st: seq<string>)
    requires IsCleanStack(rooted, st) && st != []
    ensures Clean(Render(rooted, st)) == Render(rooted, st)
  {
    RenderRooted(rooted, st);
    SplitRender(rooted, st);
    FoldCleanStack(rooted, st);
    if rooted {
      assert ([""] + st)[1..] == st;
      assert Fold(rooted, [], [""] + st) == Fold(rooted, [], st);
    } else {
      assert [] + st == st;
    }
    JoinHead(st);
  }

  /** `Clean` is idempotent. */
  lemma CleanIdempotent(p: string)
    ensures Clean(Clean(p)) == Clean(p)
  {
    if p != "" {
      var st := Fold(IsAbs(p), [], Split(p, '/'));
      assert Clean(p) == Render(IsAbs(p), st);
      CleanStack(p);
      CleanRender(IsAbs(p), st);
    } else {
      assert Clean(p) == ".";
      assert Split(".", '/') == ["."];
      assert Fold(false, [], ["."]) == [];
    }
  }

  /** A clean path followed by a slash cleans back to itself. */
  lemma CleanTrailingSlash(c: string)
    requires Clean(c) == c
    ensures Clean(c + "/") == c
  {
    SplitAppend(c, "", '/');
    assert c + "/" == c + ['/'] + "";
    FoldAppend(IsAbs(c), [], Split(c, '/'), "");
    assert IsAbs(c + "/") == IsAbs(c);
  }

  /** Cleaning a directory followed by a plain element appends the element
      to the cleaned directory. */
  lemma CleanChild(d: string, n: string)
    requires d != "" && IsPlainElement(n)
    ensures Clean(d + "/" + n) == Child(Clean(d), n)
  {
    var rooted := IsAbs(d);
    var p := d + "/" + n;
    assert p == d + ['/'] + n;
    assert IsAbs(p) == rooted;
    var st := Fold(rooted, [], Split(d, '/'));
    assert Fold(rooted, [], Split(p, '/')) == st + [n] by {
      SplitAppend(d, n, '/');
      FoldAppend(rooted, [], Split(d, '/'), n);
    }
    CleanStack(d);
    RenderPush(rooted, st, n);
  }

  /** Pushing a plain element on the stack appends it to the rendering. */
  lemma RenderPush(rooted: bool, st: seq<string>, n: string)
    requires IsCleanStack(rooted, st) && IsPlainElement(n)
    ensures Render(rooted, st + [n]) == Child(Render(rooted, st), n)
  {
    if st == [] {
      assert st + [n] == [n];
      assert Join([n], "/") == n;
    } else {
      JoinOfCleanStack(rooted, st);
      RenderPushOnto(rooted, st, n);
    }
  }

  lemma RenderPushOnto(rooted: bool, st: seq<string>, n: string)
    requires st != []
    requires var j := Join(st, "/"); j != "" && j != "." && j[0] != '/'
    ensures Render(rooted, st + [n]) == Child(Render(rooted, st), n)
  {
    var j := Join(st, "/");
    JoinAppend(st, n, "/");
    RenderOfJoined(rooted, st + [n], j + "/" + n);
    RenderOfJoined(rooted, st, j);
    ChildOfName(j, n);
  }

  /** `Render` of a non-empty stack whose join is known. */
  lemma RenderOfJoined(rooted: bool, st: seq<string>, j: string)
    requires st != [] && Join(st, "/") == j
    ensures Render(rooted, st) == if rooted then "/" + j else j
  {
    assert "" + j == j;
  }

  /** Below a relative name other than `.`, or below the root followed by
      one, a child is one slash away. */
  lemma ChildOfName(j: string, n: string)
    requires j != "" && j != "." && j[0] != '/'
    ensures Child(j, n) == j + "/" + n
    ensures Child("/" + j, n) == "/" + (j + "/" + n)
  {
    assert j != "/";
    assert |"/" + j| >= 2;
  }

  /** The join of a non-empty clean stack is a relative name other than `.`. */
  lemma JoinOfCleanStack(rooted: bool, st: seq<string>)
    requires IsCleanStack(rooted, st) && st != []
    ensures var j := Join(st, "/"); j != "" && j != "." && j[0] != '/'
  {
    var j := Join(st, "/");
    JoinHead(st);
    assert st[0] != "" && st[0] != "." && '/' !in st[0];
    assert j[..|st[0]|] == st[0];
    assert j[0] == st[0][0];
    if |j| == 1 {
      assert |st[0]| == 1 && st[0] == j;
    }
  }

  lemma CleanPlain(n: string)
    requires IsPlainElement(n)
    ensures Clean(n) == n
  {
    assert !IsAbs(n) by { assert n[0] in n; }
    assert Split(n, '/') == [n];
    assert Fold(false, [], [n]) == Fold(false, [n], []) == [n];
    assert Join([n], "/") == n;
    assert Render(false, [n]) == "" + n == n;
  }

  /** `path.Join(d, n)` for a plain element `n`. */
  lemma JoinChild(d: string, n: string)
    requires IsPlainElement(n)
    ensures JoinPath([d, n]) == Child(Clean(d), n)
  {
    if d == "" {
      assert [d, n][1..] == [n];
      assert JoinPath([d, n]) == JoinPath([n]) == Clean(Join([n], "/"));
      assert Join([n], "/") == n;
      CleanPlain(n);
      assert Clean(d) == ".";
    } else {
      assert [d, n][1..] == [n];
      assert Join([d, n], "/") == d + "/" + n;
      CleanChild(d, n);
    }
  }

  /** The last slash of `c + "/" + n`, for slash-free `n`, is the one added. */
  lemma LastSlashOfChild(c: string, n: string)
    requires '/' !in n
    ensures '/' in c + "/" + n
    ensures LastIndexOf(c + "/" + n, '/') == |c|
  {
    var p := c + "/" + n;
    assert p[|c|] == '/';
    var i := LastIndexOf(p, '/');
    assert forall k :: |c| < k < |p| ==> p[k] == n[k - |c| - 1];
    assert i <= |c|;
  }

  lemma BaseOfChild(c: string, n: string)
    requires IsPlainElement(n)
    ensures Base(Child(c, n)) == n
  {
    var p := Child(c, n);
    assert TrimTrailingSlashes(p) == p;
    if c == "/" {
      assert p == "" + "/" + n;
      LastSlashOfChild("", n);
      assert p[1..] == n;
    } else if c != "." {
      LastSlashOfChild(c, n);
      assert p[|c| + 1..] == n;
    }
  }

  lemma DirOfChild(d: string, n: string)
    requires IsPlainElement(n)
    ensures Dir(Child(Clean(d), n)) == Clean(d)
  {
    var c := Clean(d);
    var p := Child(c, n);
    CleanIdempotent(d);
    if c == "/" {
      assert p == "" + "/" + n;
      LastSlashOfChild("", n);
      assert p[..1] == "/";
      assert Clean("/") == "/";
    } else if c != "." {
      LastSlashOfChild(c, n);
      assert p[..|c| + 1] == c + "/";
      CleanTrailingSlash(c);
    }
  }

  /** `path.Join(d, n)` names the direct child `n` of `d` for every plain
      element `n`: its last element is `n` and its parent is `d`, cleaned. */
  lemma JoinIsDirectChild(d: string, n: string)
    requires IsPlainElement(n)
    ensures Base(JoinPath([d, n])) == n
    ensures Dir(JoinPath([d, n])) == Clean(d)
  {
    JoinChild(d, n);
    BaseOfChild(Clean(d), n);
    DirOfChild(d, n);
  }

  /** `path.Join(a, b, c)` is `a + "/" + b + "/" + c` cleaned. */
  lemma JoinThreeCleaned(a: string, b: string, c: string)
    requires a != ""
    ensures JoinPath([a, b, c]) == Clean((a + "/" + b) + "/" + c)
  {
    assert [a, b, c][1..] == [b, c] && [b, c][1..] == [c];
    var bc := Join([b, c], "/");
    assert Join([c], "/") == c;
    assert bc == b + "/" + c;
    assert Join([a, b, c], "/") == a + "/" + bc;
    assert a + "/" + bc == (a + "/" + b) + "/" + c;
  }

  /** Joining three elements is joining two, then the third. */
  lemma JoinThree(a: string, b: string, c: string)
    requires IsPlainElement(b) && IsPlainElement(c)
    ensures JoinPath([a, b, c]) == JoinPath([JoinPath([a, b]), c])
    ensures JoinPath([a, b, c]) == Child(Child(Clean(a), b), c)
  {
    JoinChild(a, b);
    var ab := JoinPath([a, b]);
    JoinChild(ab, c);
    CleanIdempotent(a);
    CleanNonEmpty(a);
    if a == "" {
      assert [a, b, c][1..] == [b, c];
      assert JoinPath([a, b, c]) == JoinPath([b, c]);
      JoinChild(b, c);
      CleanPlain(b);
    } else {
      JoinThreeCleaned(a, b, c);
      CleanChild(a + "/" + b, c);
      assert [a, b][1..] == [b];
      assert Join([a, b], "/") == a + "/" + b;
      assert ab == Clean(a + "/" + b);
      CleanIdempotent(a + "/" + b);
    }
  }

  /** A join with a non-empty last element is already clean. */
  lemma JoinTwoIsClean(a: string, b: string)
    requires b != ""
    ensures Clean(JoinPath([a, b])) == JoinPath([a, b])
  {
    if a != "" {
      CleanIdempotent(Join([a, b], "/"));
    } else {
      assert [a, b][1..] == [b];
      CleanIdempotent(Join([b], "/"));
    }
  }

  /** `path.Join(a, b, c)` names the entry `c` of the directory
      `path.Join(a, b)`. */
  lemma JoinThreeIsDirectChild(a: string, b: string, c: string)
    requires IsPlainElement(b) && IsPlainElement(c)
    ensures Base(JoinPath([a, b, c])) == c
    ensures Dir(JoinPath([a, b, c])) == JoinPath([a, b])
    ensures JoinPath([a, b]) == Child(Clean(a), b)
  {
    JoinThree(a, b, c);
    JoinIsDirectChild(JoinPath([a, b]), c);
    JoinTwoIsClean(a, b);
    JoinChild(a, b);
  }
}
