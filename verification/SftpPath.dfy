/** Normalization of SFTP paths and their translation below a root
    (src/common-ssh/sftp.c).
  */
module SftpPath {

  import opened Strings

  const MAX_PATH := 2048
  const MAX_DEPTH := 1024

  predicate Slash(c: char) {
    c == '/'
  }

  predicate Separator(c: char) {
    c == '/' || c == '\\'
  }

  predicate Without(p: string, sep: char -> bool) {
    forall i :: 0 <= i < |p| ==> !sep(p[i])
  }

  // ---------------------------------------------------------------------
  // The reference: a stack of components
  // ---------------------------------------------------------------------

  /** The position of the first separator, or the length. */
  function Reach(p: string, sep: char -> bool): (k: nat)
    ensures k <= |p| && Without(p[..k], sep) && (k < |p| ==> sep(p[k]))
  {
    if |p| == 0 || sep(p[0]) then 0
    else
      var k := 1 + Reach(p[1..], sep);
      assert forall i :: 0 < i < k ==> p[i] == p[1..][..k - 1][i - 1];
      k
  }

  /** The components between separators; there is always at least one. */
  function Split(p: string, sep: char -> bool): (components: seq<string>)
    ensures |components| > 0
    decreases |p|
  {
    var k := Reach(p, sep);
    if k == |p| then [p] else [p[..k]] + Split(p[k + 1..], sep)
  }

  predicate Pushes(c: string) {
    c != ".." && c != "." && c != ""
  }

  /** What one component does to the stack. */
  function Walk(stack: seq<string>, c: string): seq<string> {
    if Pushes(c) then stack + [c]
    else if c == ".." && |stack| > 0 then stack[..|stack| - 1]
    else stack
  }

  function WalkAll(stack: seq<string>, components: seq<string>): seq<string>
    decreases |components|
  {
    if |components| == 0 then stack else WalkAll(Walk(stack, components[0]), components[1..])
  }

  /** Whether the stack never grows beyond `maxDepth`. */
  predicate Shallow(stack: seq<string>, components: seq<string>, maxDepth: nat)
    decreases |components|
  {
    |components| == 0 ||
    ((Pushes(components[0]) ==> |stack| < maxDepth) && Shallow(Walk(stack, components[0]), components[1..], maxDepth))
  }

  predicate Absolute(path: string) {
    |path| > 0 && Separator(path[0])
  }

  /** The components that an absolute path leads through. */
  function Resolved(path: string): seq<string>
    requires Absolute(path)
  {
    WalkAll([], Split(path[1..], Separator))
  }

  function Normal(path: string): string
    requires Absolute(path)
  {
    "/" + Join(Resolved(path), "/")
  }

  // ---------------------------------------------------------------------
  // What the stack holds
  // ---------------------------------------------------------------------

  /** A component that is a name and nothing else: not empty, not the current or the parent
      directory, and in one piece. */
  predicate Name(c: string) {
    c != "" && c != "." && c != ".." && forall i :: 0 <= i < |c| ==> c[i] != '/' && c[i] != '\\'
  }

  predicate Names(stack: seq<string>) {
    forall i :: 0 <= i < |stack| ==> Name(stack[i])
  }

  lemma {:induction false} SplitParts(p: string, sep: char -> bool)
    ensures forall i :: 0 <= i < |Split(p, sep)| ==> Without(Split(p, sep)[i], sep)
    decreases |p|
  {
    var k := Reach(p, sep);
    if k < |p| {
      SplitParts(p[k + 1..], sep);
      assert Split(p, sep) == [p[..k]] + Split(p[k + 1..], sep);
    } else {
      assert p[..k] == p;
    }
  }

  lemma {:induction false} WalkAllNames(stack: seq<string>, components: seq<string>)
    requires Names(stack) && forall i :: 0 <= i < |components| ==> Without(components[i], Separator)
    ensures Names(WalkAll(stack, components))
    decreases |components|
  {
    if |components| > 0 {
      WalkAllNames(Walk(stack, components[0]), components[1..]);
    }
  }

  /** No empty, current or parent component is left, and no separator of either kind
      inside a component. */
  lemma ResolvedNames(path: string)
    requires Absolute(path)
    ensures Names(Resolved(path))
  {
    SplitParts(path[1..], Separator);
    WalkAllNames([], Split(path[1..], Separator));
  }

  // ---------------------------------------------------------------------
  // The laws of the special components
  // ---------------------------------------------------------------------

  lemma {:induction false} WalkAppend(stack: seq<string>, a: seq<string>, b: seq<string>)
    ensures WalkAll(stack, a + b) == WalkAll(WalkAll(stack, a), b)
    decreases |a|
  {
    if |a| == 0 {
      assert a + b == b;
    } else {
      WalkAppend(Walk(stack, a[0]), a[1..], b);
      assert (a + b)[1..] == a[1..] + b;
    }
  }

  /** A name and ".." behind it come to nothing. */
  lemma ParentCancels(stack: seq<string>, n: string)
    requires Name(n)
    ensures WalkAll(stack, [n, ".."]) == stack
  {
    WalkPair(stack, n, "..");
    assert (stack + [n])[..|stack|] == stack;
  }

  lemma WalkPair(stack: seq<string>, c: string, d: string)
    ensures WalkAll(stack, [c, d]) == Walk(Walk(stack, c), d)
  {
    assert [c, d][1..] == [d];
    WalkOne(Walk(stack, c), d);
  }

  lemma WalkOne(stack: seq<string>, c: string)
    ensures WalkAll(stack, [c]) == Walk(stack, c)
  {
    assert [c][1..] == [];
  }

  /** Paths that come to the same components are written in the same way. */
  lemma SameNormal(p: string, q: string)
    requires WalkAll([], Split(p, Separator)) == WalkAll([], Split(q, Separator))
    ensures Normal("/" + p) == Normal("/" + q)
  {
    assert ("/" + p)[1..] == p && ("/" + q)[1..] == q;
  }

  lemma SplitLeaving(x: string, n: string, c: char, d: char)
    requires Name(n) && Separator(c) && Separator(d)
    ensures Split(x + [c] + (n + [d] + ".."), Separator) == Split(x, Separator) + [n, ".."]
  {
    SplitAt(x, c, n + [d] + "..", Separator);
    SplitName(n, d, "..");
    SplitWithout("..", Separator);
  }

  lemma SplitReturning(x: string, n: string, y: string, c: char, d: char, e: char)
    requires Name(n) && Separator(c) && Separator(d) && Separator(e)
    ensures Split(x + [c] + (n + [d] + "..") + [e] + y, Separator) ==
      Split(x, Separator) + [n, ".."] + Split(y, Separator)
  {
    SplitAt(x + [c] + (n + [d] + ".."), e, y, Separator);
    SplitLeaving(x, n, c, d);
  }

  /** In the path that is written, a directory that is left again leaves no trace, wherever
      it stands. */
  lemma LeavingCancels(x: string, n: string, y: string, c: char, d: char, e: char)
    requires Name(n) && Separator(c) && Separator(d) && Separator(e)
    ensures Normal("/" + (x + [c] + (n + [d] + "..") + [e] + y)) == Normal("/" + (x + [c] + y))
    ensures Normal("/" + (x + [c] + (n + [d] + ".."))) == Normal("/" + x)
  {
    var front, back := Split(x, Separator), Split(y, Separator);
    SplitLeaving(x, n, c, d);
    CancelsBetween(front, n, []);
    assert front + [n, ".."] + [] == front + [n, ".."] && front + [] == front;
    SameNormal(x + [c] + (n + [d] + ".."), x);
    SplitReturning(x, n, y, c, d, e);
    SplitAt(x, c, y, Separator);
    CancelsBetween(front, n, back);
    SameNormal(x + [c] + (n + [d] + "..") + [e] + y, x + [c] + y);
  }

  lemma SplitName(n: string, c: char, rest: string)
    requires (Name(n) || n == ".." || n == ".") && Separator(c)
    ensures Split(n + [c] + rest, Separator) == [n] + Split(rest, Separator)
  {
    SplitAt(n, c, rest, Separator);
    SplitWithout(n, Separator);
  }

  lemma CancelsBetween(a: seq<string>, n: string, b: seq<string>)
    requires Name(n)
    ensures WalkAll([], a + [n, ".."] + b) == WalkAll([], a + b)
  {
    WalkAppend([], a + [n, ".."], b);
    WalkAppend([], a, [n, ".."]);
    ParentCancels(WalkAll([], a), n);
    WalkAppend([], a, b);
  }

  /** At the root there is no parent. */
  lemma RootHasNoParent(y: string, c: char)
    requires Separator(c)
    ensures Normal("/" + (".." + [c] + y)) == Normal("/" + y)
    ensures Normal("/" + "..") == "/"
  {
    SplitName("..", c, y);
    SplitWithout("..", Separator);
    WalkAppend([], [".."], Split(y, Separator));
    WalkOne([], "..");
    SameNormal(".." + [c] + y, y);
    assert ("/" + "..")[1..] == "..";
  }

  /** The current directory and repeated separators leave no trace. */
  lemma StayingCancels(x: string, y: string, c: char, d: char)
    requires Separator(c) && Separator(d)
    ensures Normal("/" + (x + [c] + ("." + [d] + y))) == Normal("/" + (x + [c] + y))
    ensures Normal("/" + (x + [c] + ("" + [d] + y))) == Normal("/" + (x + [c] + y))
  {
    var front, back := Split(x, Separator), Split(y, Separator);
    SplitAt(x, c, "." + [d] + y, Separator);
    SplitAt(x, c, "" + [d] + y, Separator);
    SplitAt(x, c, y, Separator);
    SplitName(".", d, y);
    SplitAt("", d, y, Separator);
    SplitWithout("", Separator);
    StaysBetween(front, ".", back);
    StaysBetween(front, "", back);
    SameNormal(x + [c] + ("." + [d] + y), x + [c] + y);
    SameNormal(x + [c] + ("" + [d] + y), x + [c] + y);
  }

  lemma StaysBetween(a: seq<string>, n: string, b: seq<string>)
    requires n == "." || n == ""
    ensures WalkAll([], a + ([n] + b)) == WalkAll([], a + b)
  {
    WalkAppend([], a, [n] + b);
    WalkAppend(WalkAll([], a), [n], b);
    WalkOne(WalkAll([], a), n);
    WalkAppend([], a, b);
  }

  /** A path that is made of names only stays as it is. */
  lemma NamesStay(names: seq<string>)
    requires |names| > 0 && Names(names)
    ensures Normal("/" + Join(names, "/")) == "/" + Join(names, "/") && Resolved("/" + Join(names, "/")) == names
  {
    assert ("/" + Join(names, "/"))[1..] == Join(names, "/");
    SplitJoin(names, Separator);
    WalkNames([], names);
    assert [] + names == names;
  }

  // ---------------------------------------------------------------------
  // Lengths
  // ---------------------------------------------------------------------

  /** The length of the components with one separator each. */
  function Weight(components: seq<string>): nat {
    if |components| == 0 then 0
    else Weight(components[..|components| - 1]) + |components[|components| - 1]| + 1
  }

  lemma {:induction false} WeightCons(c: string, rest: seq<string>)
    ensures Weight([c] + rest) == |c| + 1 + Weight(rest)
  {
    if |rest| == 0 {
      assert [c] + rest == [c];
      assert [c][..0] == [];
    } else {
      var n := |rest| - 1;
      WeightCons(c, rest[..n]);
      assert ([c] + rest)[..n + 1] == [c] + rest[..n];
    }
  }

  lemma {:induction false} SplitWeight(p: string, sep: char -> bool)
    ensures Weight(Split(p, sep)) == |p| + 1
    decreases |p|
  {
    var k := Reach(p, sep);
    if k < |p| {
      SplitWeight(p[k + 1..], sep);
      WeightCons(p[..k], Split(p[k + 1..], sep));
    } else {
      assert [p][..0] == [];
    }
  }

  lemma {:induction false} WalkAllWeight(stack: seq<string>, components: seq<string>)
    ensures Weight(WalkAll(stack, components)) <= Weight(stack) + Weight(components)
    decreases |components|
  {
    if |components| > 0 {
      var c := components[0];
      assert [c] + components[1..] == components;
      WeightCons(c, components[1..]);
      assert (stack + [c])[..|stack|] == stack;
      WalkAllWeight(Walk(stack, c), components[1..]);
    }
  }

  lemma {:induction false} JoinLength(components: seq<string>)
    ensures |Join(components, "/")| == if |components| == 0 then 0 else Weight(components) - 1
    ensures |components| > 0 ==> Weight(components) > 0
  {
    if |components| > 1 {
      JoinLength(components[..|components| - 1]);
    } else if |components| == 1 {
      assert components[..0] == [];
    }
  }

  /** A normalized path is no longer than the path. */
  lemma NormalLength(path: string)
    requires Absolute(path)
    ensures |Normal(path)| <= |path|
  {
    var components := Split(path[1..], Separator);
    SplitWeight(path[1..], Separator);
    WalkAllWeight([], components);
    JoinLength(Resolved(path));
  }

  /** Names on the stack weigh at least two each, so that depth is bounded by length. */
  lemma {:induction false} WeighsTwo(stack: seq<string>)
    requires forall i :: 0 <= i < |stack| ==> |stack[i]| > 0
    ensures Weight(stack) >= 2 * |stack|
  {
    if |stack| > 0 {
      WeighsTwo(stack[..|stack| - 1]);
    }
  }

  lemma {:induction false} LightIsShallow(stack: seq<string>, components: seq<string>, maxDepth: nat)
    requires forall i :: 0 <= i < |stack| ==> |stack[i]| > 0
    requires Weight(stack) + Weight(components) < 2 * maxDepth + 2
    ensures Shallow(stack, components, maxDepth)
    decreases |components|
  {
    if |components| > 0 {
      var c := components[0];
      assert [c] + components[1..] == components;
      WeightCons(c, components[1..]);
      assert (stack + [c])[..|stack|] == stack;
      WeighsTwo(stack);
      LightIsShallow(Walk(stack, c), components[1..], maxDepth);
    }
  }

  // ---------------------------------------------------------------------
  // Normalizing again
  // ---------------------------------------------------------------------

  lemma {:induction false} WalkNames(stack: seq<string>, names: seq<string>)
    requires Names(names)
    ensures WalkAll(stack, names) == stack + names
    decreases |names|
  {
    if |names| > 0 {
      WalkNames(stack + [names[0]], names[1..]);
      assert stack + [names[0]] + names[1..] == stack + names;
    } else {
      assert stack + names == stack;
    }
  }

  /** Splitting before and after a separator. */
  lemma {:induction false} SplitAt(a: string, c: char, b: string, sep: char -> bool)
    requires sep(c)
    ensures Split(a + [c] + b, sep) == Split(a, sep) + Split(b, sep)
    decreases |a|
  {
    var p, k := a + [c] + b, Reach(a, sep);
    ReachAt(a, c, b, sep);
    SplitFirst(p, k, sep);
    if k < |a| {
      assert p[..k] == a[..k];
      assert p[k + 1..] == a[k + 1..] + [c] + b;
      SplitAt(a[k + 1..], c, b, sep);
      SplitFirst(a, k, sep);
      Regroup(a[..k], Split(a[k + 1..], sep), Split(b, sep));
    } else {
      assert p[..k] == a;
      assert p[k + 1..] == b;
    }
  }

  lemma SplitFirst(p: string, k: nat, sep: char -> bool)
    requires k == Reach(p, sep) < |p|
    ensures Split(p, sep) == [p[..k]] + Split(p[k + 1..], sep)
  {
  }

  lemma Regroup(first: string, a: seq<string>, b: seq<string>)
    ensures [first] + (a + b) == ([first] + a) + b
  {
  }

  lemma {:induction false} ReachAt(a: string, c: char, b: string, sep: char -> bool)
    requires sep(c)
    ensures Reach(a + [c] + b, sep) == Reach(a, sep)
  {
    if |a| > 0 && !sep(a[0]) {
      ReachAt(a[1..], c, b, sep);
      assert (a + [c] + b)[1..] == a[1..] + [c] + b;
    }
  }

  lemma SplitWithout(p: string, sep: char -> bool)
    requires Without(p, sep)
    ensures Split(p, sep) == [p]
  {
  }

  /** Splitting undoes joining. */
  lemma {:induction false} SplitJoin(names: seq<string>, sep: char -> bool)
    requires |names| > 0 && sep('/') && forall i :: 0 <= i < |names| ==> Without(names[i], sep)
    ensures Split(Join(names, "/"), sep) == names
  {
    var n := |names| - 1;
    SplitWithout(names[n], sep);
    if n > 0 {
      SplitJoin(names[..n], sep);
      SplitAt(Join(names[..n], "/"), '/', names[n], sep);
      assert names == names[..n] + [names[n]];
    }
  }

  /** Normalization is idempotent. */
  lemma NormalAgain(path: string)
    requires Absolute(path)
    ensures Resolved(Normal(path)) == Resolved(path) && Normal(Normal(path)) == Normal(path)
  {
    var names := Resolved(path);
    ResolvedNames(path);
    assert Normal(path)[1..] == Join(names, "/");
    WalkNames([], names);
    if |names| > 0 {
      SplitJoin(names, Separator);
    } else {
      SplitWithout("", Separator);
      assert WalkAll([], [""]) == WalkAll([], [""][1..]);
    }
  }

  // ---------------------------------------------------------------------
  // Normalization in a scratch buffer
  // ---------------------------------------------------------------------

  predicate Unterminated(s: string) {
    forall i :: 0 <= i < |s| ==> s[i] != NUL
  }

  /** The string that a pointer into a buffer stands for. */
  function StringAt(buffer: seq<char>, at: nat): string
    decreases |buffer| - at
  {
    if at >= |buffer| || buffer[at] == NUL then "" else [buffer[at]] + StringAt(buffer, at + 1)
  }

  /** Whether the string at a position is `s`, with its terminator in the buffer. */
  ghost predicate Ends(buffer: seq<char>, at: nat, s: string) {
    && at + |s| < |buffer| && buffer[at + |s|] == NUL && Unterminated(s)
    && forall i :: 0 <= i < |s| ==> buffer[at + i] == s[i]
  }

  lemma {:induction false} EndsString(buffer: seq<char>, at: nat, s: string)
    requires Ends(buffer, at, s)
    ensures StringAt(buffer, at) == s
    decreases |s|
  {
    if |s| > 0 {
      assert buffer[at + 0] == s[0];
      forall i | 0 <= i < |s| - 1
        ensures buffer[at + 1 + i] == s[1..][i]
      {
        assert buffer[at + (i + 1)] == s[i + 1];
      }
      EndsString(buffer, at + 1, s[1..]);
    }
  }

  /** What is left to split from position `start` of a path on. */
  function Left(p: string, start: nat): seq<string> {
    if start > |p| then [] else Split(p[start..], Separator)
  }

  lemma LeftStep(p: string, start: nat, i: nat)
    requires start <= i <= |p| && (i == |p| || Separator(p[i]))
    requires Without(p[start..i], Separator)
    ensures Left(p, start) == [p[start..i]] + Left(p, i + 1)
  {
    var q := p[start..];
    forall j | 0 <= j < i - start
      ensures !Separator(q[j])
    {
      assert q[j] == p[start..i][j];
    }
    ReachIs(q, i - start, Separator);
    assert q[..i - start] == p[start..i];
    if i < |p| {
      assert q[i - start + 1..] == p[i + 1..];
    } else {
      assert q == p[start..i];
    }
  }

  lemma {:induction false} ReachIs(p: string, k: nat, sep: char -> bool)
    requires k <= |p| && (k == |p| || sep(p[k])) && forall j :: 0 <= j < k ==> !sep(p[j])
    ensures Reach(p, sep) == k
  {
    if k > 0 {
      ReachIs(p[1..], k - 1, sep);
    }
  }

  /** The positions on the stack are those of the names, each of which ends before
      `start`. */
  ghost predicate Stored(scratch: seq<char>, stack: seq<nat>, names: seq<string>, start: nat) {
    && |names| <= |stack|
    && forall k :: 0 <= k < |names| ==> Ends(scratch, stack[k], names[k]) && stack[k] + |names[k]| < start
  }

  /** What the scan of a path must come to: its stack, and whether that is shallow. */
  datatype Goal = Goal(stack: seq<string>, shallow: bool)

  /** What is still to come when given names are on the stack and the scan has reached
      a position. */
  type Outlook = (seq<string>, nat) -> Goal

  function OutlookOf(p: string, maxDepth: nat): Outlook {
    (names: seq<string>, start: nat) => Goal(WalkAll(names, Left(p, start)), Shallow(names, Left(p, start), maxDepth))
  }

  /** Whether the component from `start` to `i` leads from one outlook to the next. */
  ghost predicate Leads(outlook: Outlook, p: string, maxDepth: nat, names: seq<string>, start: nat, i: nat) {
    start <= i <= |p| && (i == |p| || Separator(p[i])) && Without(p[start..i], Separator) ==>
      var now, later := outlook(names, start), outlook(Walk(names, p[start..i]), i + 1);
      && now.stack == later.stack
      && (now.shallow <==> (Pushes(p[start..i]) ==> |names| < maxDepth) && later.shallow)
  }

  ghost predicate Lawful(outlook: Outlook, p: string, maxDepth: nat) {
    && (forall names: seq<string> :: outlook(names, |p| + 1) == Goal(names, true))
    && (forall names: seq<string>, start: nat, i: nat {:trigger Leads(outlook, p, maxDepth, names, start, i)} ::
          Leads(outlook, p, maxDepth, names, start, i))
  }

  lemma OutlookLeads(p: string, maxDepth: nat, names: seq<string>, start: nat, i: nat)
    ensures Leads(OutlookOf(p, maxDepth), p, maxDepth, names, start, i)
  {
    if start <= i <= |p| && (i == |p| || Separator(p[i])) && Without(p[start..i], Separator) {
      LeftStep(p, start, i);
      WalkFirst(names, p[start..i], Left(p, i + 1), maxDepth);
    }
  }

  lemma WalkFirst(names: seq<string>, c: string, rest: seq<string>, maxDepth: nat)
    ensures WalkAll(names, [c] + rest) == WalkAll(Walk(names, c), rest)
    ensures Shallow(names, [c] + rest, maxDepth) <==>
      (Pushes(c) ==> |names| < maxDepth) && Shallow(Walk(names, c), rest, maxDepth)
  {
    assert ([c] + rest)[1..] == rest;
  }

  lemma OutlookLawful(p: string, maxDepth: nat)
    ensures Lawful(OutlookOf(p, maxDepth), p, maxDepth)
  {
    forall names: seq<string>, start: nat, i: nat
      ensures Leads(OutlookOf(p, maxDepth), p, maxDepth, names, start, i)
    {
      OutlookLeads(p, maxDepth, names, start, i);
    }
  }

  /** Where the scan stands: before `start` all is done, from there on the path is
      untouched. */
  ghost predicate Scanned(p: string, scratch: seq<char>, start: nat) {
    && Unterminated(p) && |p| < |scratch|
    && (forall j :: start <= j < |p| ==> scratch[j] == p[j])
    && (start <= |p| ==> scratch[|p|] == NUL)
  }

  /** Terminating the component from `start` to `i` disturbs nothing before it. */
  lemma Terminated(p: string, before: seq<char>, after: seq<char>, start: nat, i: nat, stack: seq<nat>,
                   names: seq<string>)
    requires start <= i <= |p| < |before| && Unterminated(p) && Stored(before, stack, names, start)
    requires forall j :: start <= j < |p| ==> before[j] == p[j]
    requires after == before[i := NUL]
    ensures Stored(after, stack, names, i + 1) && Ends(after, start, p[start..i])
  {
    var c := p[start..i];
    forall j | 0 <= j < |c|
      ensures after[start + j] == c[j]
    {
      assert before[start + j] == p[start + j];
    }
  }

  /** Lets a component act on the stack. */
  method Act(component: string, stack: array<nat>, depth: nat, start: nat, ghost scratch: seq<char>,
             ghost names: seq<string>, ghost end: nat)
    returns (ok: bool, depth': nat)
    requires depth == |names| && start + |component| < end
    requires Stored(scratch, stack[..], names, end) && Ends(scratch, start, component)
    modifies stack
    ensures ok <==> (Pushes(component) ==> depth < stack.Length)
    ensures ok ==> depth' == |Walk(names, component)| && Stored(scratch, stack[..], Walk(names, component), end)
  {
    depth' := depth;
    if component == ".." {
      if depth > 0 {
        depth' := depth - 1;
      }
    } else if component != "." && component != "" {
      if depth >= stack.Length {
        return false, depth;
      }
      stack[depth] := start;
      depth' := depth + 1;
    }
    ok := true;
  }

  /** Terminates the component from `start` to `i` and lets it act on the stack. */
  method Close(scratch: array<char>, stack: array<nat>, depth: nat, start: nat, i: nat, ghost p: string,
               ghost names: seq<string>, ghost outlook: Outlook)
    returns (ok: bool, depth': nat, ghost names': seq<string>)
    requires start <= i <= |p| && depth == |names| && Lawful(outlook, p, stack.Length)
    requires (i == |p| || Separator(p[i])) && Without(p[start..i], Separator)
    requires Scanned(p, scratch[..], start) && Stored(scratch[..], stack[..], names, start)
    modifies scratch, stack
    ensures !ok ==> !outlook(names, start).shallow
    ensures ok ==> depth' == |names'| && outlook(names', i + 1) == outlook(names, start)
    ensures ok ==> Scanned(p, scratch[..], i + 1) && Stored(scratch[..], stack[..], names', i + 1)
  {
    ghost var before, c := scratch[..], p[start..i];
    assert Leads(outlook, p, stack.Length, names, start, i);
    scratch[i] := NUL;
    Terminated(p, before, scratch[..], start, i, stack[..], names);
    EndsString(scratch[..], start, c);
    var component := StringAt(scratch[..], start);
    names' := Walk(names, c);
    ok, depth' := Act(component, stack, depth, start, scratch[..], names, i + 1);
  }

  /** Finds the components of a path in a scratch copy of it. */
  method Scan(scratch: array<char>, stack: array<nat>, length: nat, ghost p: string, ghost outlook: Outlook)
    returns (ok: bool, depth: nat, ghost names: seq<string>)
    requires length == |p| && Scanned(p, scratch[..], 0) && Lawful(outlook, p, stack.Length)
    modifies scratch, stack
    ensures ok <==> outlook([], 0).shallow
    ensures ok ==> names == outlook([], 0).stack && depth == |names|
    ensures ok ==> Stored(scratch[..], stack[..], names, |p| + 1)
  {
    depth, names := 0, [];
    var start: nat := 0;
    var i: nat := 0;
    while i <= length
      invariant start <= i <= length + 1 && (i == length + 1 ==> start == i)
      invariant i <= length ==> Without(p[start..i], Separator)
      invariant depth == |names| && outlook(names, start) == outlook([], 0)
      invariant Scanned(p, scratch[..], start) && Stored(scratch[..], stack[..], names, start)
    {
      var c := scratch[i];
      assert c == scratch[..][i] == if i < |p| then p[i] else NUL;
      if Separator(c) || c == NUL {
        ok, depth, names := Close(scratch, stack, depth, start, i, p, names, outlook);
        if !ok {
          return;
        }
        start := i + 1;
      } else {
        assert p[start..i + 1] == p[start..i] + [p[i]];
      }
      i := i + 1;
    }
    assert outlook(names, |p| + 1) == Goal(names, true);
    ok := true;
  }

  /** The strings that the positions on the stack stand for. */
  method Components(scratch: array<char>, stack: array<nat>, depth: nat, ghost names: seq<string>, ghost end: nat)
    returns (components: seq<string>)
    requires depth == |names| && Stored(scratch[..], stack[..], names, end)
    ensures components == names
  {
    components := [];
    var k := 0;
    while k < depth
      invariant k <= depth && components == names[..k]
    {
      EndsString(scratch[..], stack[k], names[k]);
      components := components + [StringAt(scratch[..], stack[k])];
      k := k + 1;
    }
  }

  /** Normalizes a path within limits on its length and on its depth. Nothing is ever
      cut off from the result. */
  method Normalize(path: string, fullpath: array<char>, maxPath: nat, maxDepth: nat) returns (ok: bool)
    requires Unterminated(path) && 2 <= maxPath <= fullpath.Length
    modifies fullpath
    ensures ok <==> Absolute(path) && |path| < maxPath && Shallow([], Split(path[1..], Separator), maxDepth)
    ensures ok ==> Ends(fullpath[..], 0, Normal(path))
    ensures !ok ==> fullpath[..] == old(fullpath[..])
  {
    if !Absolute(path) {
      return false;
    }
    ghost var p := path[1..];
    var scratch := new char[maxPath - 1];
    var length := Strlcpy(scratch, 0, path[1..], maxPath - 1);
    if length >= maxPath - 1 {
      return false;
    }
    var components;
    ok, components := Locate(scratch, length, maxDepth, p);
    if ok {
      Compose(path, components, fullpath, maxPath);
    }
  }

  /** The components that are left of a path, unless it is too deep. */
  method Locate(scratch: array<char>, length: nat, maxDepth: nat, ghost p: string)
    returns (ok: bool, components: seq<string>)
    requires length == |p| && Scanned(p, scratch[..], 0)
    modifies scratch
    ensures ok <==> Shallow([], Split(p, Separator), maxDepth)
    ensures ok ==> components == WalkAll([], Split(p, Separator))
  {
    var stack := new nat[maxDepth];
    assert p[0..] == p;
    OutlookLawful(p, maxDepth);
    ghost var names;
    var depth;
    ok, depth, names := Scan(scratch, stack, length, p, OutlookOf(p, maxDepth));
    if ok {
      components := Components(scratch, stack, depth, names, |p| + 1);
    } else {
      components := [];
    }
  }

  /** Writes the normalized path. */
  method Compose(path: string, components: seq<string>, fullpath: array<char>, maxPath: nat)
    requires Absolute(path) && Unterminated(path) && components == Resolved(path)
    requires |path| < maxPath <= fullpath.Length
    modifies fullpath
    ensures Ends(fullpath[..], 0, Normal(path))
  {
    NormalLength(path);
    NormalUnterminated(path);
    fullpath[0] := '/';
    var joined := Strljoin(fullpath, 1, components, "/", maxPath - 1);
    RootedEnds(fullpath[..], Join(components, "/"), maxPath);
  }

  lemma RootedEnds(buffer: seq<char>, s: string, n: nat)
    requires n > 0 && Holds(buffer, 1, s, n - 1) && |s| < n - 1
    requires buffer[0] == '/' && Unterminated("/" + s)
    ensures Ends(buffer, 0, "/" + s)
  {
    var full := "/" + s;
    forall i | 0 <= i < |full|
      ensures buffer[0 + i] == full[i]
    {
      if i > 0 {
        assert buffer[1 + (i - 1)] == s[i - 1];
      }
    }
    assert buffer[1 + |s|] == NUL;
  }

  lemma NormalUnterminated(path: string)
    requires Absolute(path) && Unterminated(path)
    ensures Unterminated(Normal(path))
  {
    assert Without(path[1..], Nul);
    SplitKeeps(path[1..], Separator, Nul);
    WalkAllKeeps([], Split(path[1..], Separator), Nul);
    JoinKeeps(Resolved(path), Nul);
  }

  predicate Nul(c: char) {
    c == NUL
  }

  predicate AllWithout(components: seq<string>, bad: char -> bool) {
    forall i :: 0 <= i < |components| ==> Without(components[i], bad)
  }

  lemma {:induction false} SplitKeeps(p: string, sep: char -> bool, bad: char -> bool)
    requires Without(p, bad)
    ensures AllWithout(Split(p, sep), bad)
    decreases |p|
  {
    var k := Reach(p, sep);
    if k < |p| {
      SplitKeeps(p[k + 1..], sep, bad);
      SplitFirst(p, k, sep);
    }
  }

  lemma {:induction false} WalkAllKeeps(stack: seq<string>, components: seq<string>, bad: char -> bool)
    requires AllWithout(stack, bad) && AllWithout(components, bad)
    ensures AllWithout(WalkAll(stack, components), bad)
    decreases |components|
  {
    if |components| > 0 {
      WalkAllKeeps(Walk(stack, components[0]), components[1..], bad);
    }
  }

  lemma {:induction false} JoinKeeps(components: seq<string>, bad: char -> bool)
    requires AllWithout(components, bad) && !bad('/')
    ensures Without(Join(components, "/"), bad)
  {
    if |components| > 1 {
      JoinKeeps(components[..|components| - 1], bad);
    }
  }

  /** With the limits of the source the depth is never exceeded: every absolute path
      that is short enough is normalized. */
  method NormalizePath(path: string, fullpath: array<char>) returns (ok: bool)
    requires Unterminated(path) && fullpath.Length >= MAX_PATH
    modifies fullpath
    ensures ok <==> 0 < |path| < 2048 && (path[0] == '/' || path[0] == '\\')
    ensures ok ==> Ends(fullpath[..], 0, Normal(path)) && Names(Resolved(path))
    ensures !ok ==> fullpath[..] == old(fullpath[..])
  {
    if Absolute(path) && |path| < MAX_PATH {
      SplitWeight(path[1..], Separator);
      LightIsShallow([], Split(path[1..], Separator), MAX_DEPTH);
    }
    if Absolute(path) {
      ResolvedNames(path);
    }
    ok := Normalize(path, fullpath, MAX_PATH, MAX_DEPTH);
  }

  // ---------------------------------------------------------------------
  // Translation below a root
  // ---------------------------------------------------------------------

  function TrimSlashes(b: string): string {
    if |b| > 0 && b[0] == '/' then TrimSlashes(b[1..]) else b
  }

  function Rooted(a: string): string {
    if |a| == 0 || a[|a| - 1] != '/' then a + "/" else a
  }

  function Appended(a: string, b: string): string {
    Rooted(a) + TrimSlashes(b)
  }

  /** Exactly one slash stands between the two paths, apart from any that the first ends
      with: of the second only the leading slashes are dropped. */
  lemma {:induction false} JoinedByOneSlash(a: string, b: string)
    ensures var t := TrimSlashes(b);
      && (|t| > 0 ==> t[0] != '/') && |t| <= |b| && b[|b| - |t|..] == t
      && (forall i :: 0 <= i < |b| - |t| ==> b[i] == '/')
      && Appended(a, b) == (if |a| > 0 && a[|a| - 1] == '/' then a[..|a| - 1] else a) + "/" + t
    decreases |b|
  {
    if |b| > 0 && b[0] == '/' {
      JoinedByOneSlash(a, b[1..]);
    }
    if |a| > 0 && a[|a| - 1] == '/' {
      assert a == a[..|a| - 1] + "/";
    }
  }

  lemma HoldsEnds(buffer: seq<char>, s: string, n: nat)
    requires Holds(buffer, 0, s, n) && |s| < n && Unterminated(s)
    ensures Ends(buffer, 0, s)
  {
    assert forall i :: 0 <= i < |s| ==> buffer[0 + i] == s[i];
  }

  method SkipSlashes(b: string) returns (rest: string)
    ensures rest == TrimSlashes(b)
  {
    rest := b;
    while |rest| > 0 && rest[0] == '/'
      invariant TrimSlashes(rest) == TrimSlashes(b)
      decreases |rest|
    {
      rest := rest[1..];
    }
  }

  /** Adds a trailing slash to the path in the buffer unless it has one. */
  method EnsureSlash(fullpath: array<char>, ghost a: string, length: nat) returns (total: nat)
    requires fullpath.Length >= MAX_PATH > length == |a| && Holds(fullpath[..], 0, a, MAX_PATH)
    modifies fullpath
    ensures total == |Rooted(a)| <= MAX_PATH && Holds(fullpath[..], 0, Rooted(a), MAX_PATH)
  {
    total := length;
    assert length > 0 ==> fullpath[0 + (length - 1)] == a[length - 1];
    if length == 0 || fullpath[length - 1] != '/' {
      total := AppendAt(fullpath, a, length, "/");
    }
  }

  /** Copies a string behind the one in the buffer. */
  method AppendAt(fullpath: array<char>, ghost a: string, length: nat, b: string) returns (total: nat)
    requires fullpath.Length >= MAX_PATH >= length == |a| && Holds(fullpath[..], 0, a, MAX_PATH)
    modifies fullpath
    ensures total == |a + b| && Holds(fullpath[..], 0, a + b, MAX_PATH)
  {
    ghost var before := fullpath[..];
    var more := Strlcpy(fullpath, length, b, MAX_PATH - length);
    HoldsAppend(before, fullpath[..], 0, a, b, MAX_PATH);
    total := length + more;
  }

  /** Joins two paths with one slash, if the result fits. */
  method AppendPath(fullpath: array<char>, a: string, b: string) returns (ok: bool)
    requires fullpath.Length >= MAX_PATH && Unterminated(a) && Unterminated(b)
    modifies fullpath
    ensures ok <==> |Appended(a, b)| < MAX_PATH
    ensures ok ==> Ends(fullpath[..], 0, Appended(a, b))
  {
    var length := Strlcpy(fullpath, 0, a, MAX_PATH);
    if length >= MAX_PATH {
      return false;
    }
    length := EnsureSlash(fullpath, a, length);
    var rest := SkipSlashes(b);
    length := AppendAt(fullpath, Rooted(a), length, rest);
    if length >= MAX_PATH {
      return false;
    }
    TrimUnterminated(b);
    HoldsEnds(fullpath[..], Appended(a, b), MAX_PATH);
    return true;
  }

  /** Translates the name of a file into a path below the root. */
  method TranslateName(fullpath: array<char>, root: string, name: string) returns (ok: bool)
    requires fullpath.Length >= MAX_PATH && Unterminated(root) && Unterminated(name)
    modifies fullpath
    ensures ok <==> Absolute(name) && |name| < MAX_PATH && |Appended(root, Normal(name))| < MAX_PATH
    ensures ok ==> Ends(fullpath[..], 0, Appended(root, Normal(name)))
  {
    var normalized := new char[MAX_PATH];
    ok := NormalizePath(name, normalized);
    if !ok {
      return;
    }
    EndsString(normalized[..], 0, Normal(name));
    NormalUnterminated(name);
    ok := AppendPath(fullpath, root, StringAt(normalized[..], 0));
  }

  lemma TrimUnterminated(b: string)
    requires Unterminated(b)
    ensures Unterminated(TrimSlashes(b))
  {
  }

  /** The components of a path as the server will see them. */
  function Parts(path: string): seq<string> {
    NonEmpty(Split(path, Slash))
  }

  function NonEmpty(components: seq<string>): seq<string> {
    if |components| == 0 then []
    else if components[0] == "" then NonEmpty(components[1..])
    else [components[0]] + NonEmpty(components[1..])
  }

  lemma {:induction false} NonEmptyAppend(a: seq<string>, b: seq<string>)
    ensures NonEmpty(a + b) == NonEmpty(a) + NonEmpty(b)
  {
    if |a| == 0 {
      assert a + b == b;
    } else {
      NonEmptyAppend(a[1..], b);
      assert (a + b)[1..] == a[1..] + b;
      assert (a + b)[0] == a[0];
      Regroup(a[0], NonEmpty(a[1..]), NonEmpty(b));
    }
  }

  lemma {:induction false} NonEmptyNames(names: seq<string>)
    requires Names(names)
    ensures NonEmpty(names) == names
  {
    if |names| > 0 {
      NonEmptyNames(names[1..]);
      assert [names[0]] + names[1..] == names;
    }
  }

  lemma PartsAppend(a: string, b: string)
    ensures Parts(a + ['/'] + b) == Parts(a) + Parts(b)
  {
    SplitAt(a, '/', b, Slash);
    NonEmptyAppend(Split(a, Slash), Split(b, Slash));
  }

  lemma PartsJoin(names: seq<string>)
    requires Names(names)
    ensures Parts(Join(names, "/")) == names
  {
    if |names| > 0 {
      SplitJoin(names, Slash);
      NonEmptyNames(names);
    } else {
      SplitWithout("", Slash);
      assert [""][1..] == [];
    }
  }

  lemma PartsRooted(a: string, b: string)
    ensures Parts(Rooted(a) + b) == Parts(a) + Parts(b)
  {
    if Rooted(a) == a {
      var r := a[..|a| - 1];
      assert a == r + ['/'] + "";
      PartsAppend(r, "");
      SplitWithout("", Slash);
      assert Parts("") == [] by { assert [""][1..] == []; }
      assert a + b == r + ['/'] + b;
      PartsAppend(r, b);
    } else {
      assert Rooted(a) + b == a + ['/'] + b;
      PartsAppend(a, b);
    }
  }

  lemma {:induction false} JoinStart(names: seq<string>)
    requires |names| > 0 && Names(names)
    ensures |Join(names, "/")| > 0 && Join(names, "/")[0] == names[0][0] && names[0][0] != '/'
  {
    if |names| > 1 {
      JoinStart(names[..|names| - 1]);
    }
    assert !Separator(names[0][0]);
  }

  /** A translated name leads through the components of the root and then through those
      of the normalized name: it never leaves the root. */
  lemma TranslatedParts(root: string, name: string)
    requires Absolute(name)
    ensures Parts(Appended(root, Normal(name))) == Parts(root) + Resolved(name)
    ensures forall i :: 0 <= i < |Resolved(name)| ==> Name(Resolved(name)[i])
  {
    var names := Resolved(name);
    ResolvedNames(name);
    var joined := Join(names, "/");
    if |names| > 0 {
      JoinStart(names);
    }
    assert Normal(name)[1..] == joined;
    assert TrimSlashes(Normal(name)) == TrimSlashes(joined) == joined;
    PartsRooted(root, joined);
    PartsJoin(names);
  }
}
