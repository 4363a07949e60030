/** The tree walker `obj_iterate`: every string of the tree that starts with
    the marker `#!jsonnet` is replaced by what the evaluator `f` makes of it.
    Dict values and list elements are rewritten positionally, keys never,
    and what `f` returns is spliced in as it is, without being walked again. */
module TreeWalker {
  import opened Results
  import opened Json

  /** The marker that flags a string as an embedded snippet. */
  const Marker: string := "#!jsonnet"

  /** Python's `s.startswith("#!jsonnet")`. */
  predicate IsMarked(s: string)
  {
    Marker <= s
  }

  // ---------------------------------------------------------------------------
  // Specification: the marked strings of a tree and the rewritten tree
  // ---------------------------------------------------------------------------

  /** The marked strings of a tree, in the depth-first order (dict values in
      key order, list elements in index order) in which the walker meets them. */
  function Marks(t: Json): (ss: seq<string>)
    ensures forall s <- ss :: IsMarked(s)
    decreases t
  {
    match t
    case JObj(ms) => MarksMembers(ms)
    case JArr(xs) => MarksItems(xs)
    case JStr(s) => if IsMarked(s) then [s] else []
    case _ => []
  }

  function MarksMembers(ms: Members): (ss: seq<string>)
    ensures forall s <- ss :: IsMarked(s)
    decreases ms
  {
    if ms == [] then []
    else
      var last := ms[|ms| - 1];
      assert last.1 < last;
      MarksMembers(ms[..|ms| - 1]) + Marks(last.1)
  }

  function MarksItems(xs: seq<Json>): (ss: seq<string>)
    ensures forall s <- ss :: IsMarked(s)
    decreases xs
  {
    if xs == [] then [] else MarksItems(xs[..|xs| - 1]) + Marks(xs[|xs| - 1])
  }

  /** What `obj_iterate(t, f)` returns, or the exception it raises. */
  function Rewrite(t: Json, f: string -> Result<Json>): (r: Result<Json>)
    ensures t.JStr? && IsMarked(t.str) ==> r == f(t.str)
    ensures t.JNum? || t.JBool? || t.JNull? || (t.JStr? && !IsMarked(t.str)) ==> r == Ok(t)
    ensures r.Ok? && t.JObj? ==> r.value.JObj? && Keys(r.value.members) == Keys(t.members)
    ensures r.Ok? && t.JArr? ==> r.value.JArr? && |r.value.items| == |t.items|
    decreases t
  {
    match t
    case JObj(ms) =>
      var ms' :- RewriteMembers(ms, f);
      Ok(JObj(ms'))
    case JArr(xs) =>
      var xs' :- RewriteItems(xs, f);
      Ok(JArr(xs'))
    case JStr(s) => if IsMarked(s) then f(s) else Ok(t)
    case _ => Ok(t)
  }

  /** A dict's entries, values rewritten one after another in key order;
      the first failure aborts. */
  function RewriteMembers(ms: Members, f: string -> Result<Json>): (r: Result<Members>)
    ensures r.Ok? ==> Keys(r.value) == Keys(ms)
    decreases ms
  {
    if ms == [] then Ok([])
    else
      var last := ms[|ms| - 1];
      assert last.1 < last;
      var init :- RewriteMembers(ms[..|ms| - 1], f);
      var v :- Rewrite(last.1, f);
      assert Keys(init + [(last.0, v)]) == Keys(init) + [last.0];
      assert Keys(ms) == Keys(ms[..|ms| - 1]) + [last.0];
      Ok(init + [(last.0, v)])
  }

  /** A list's elements, rewritten one after another in index order. */
  function RewriteItems(xs: seq<Json>, f: string -> Result<Json>): (r: Result<seq<Json>>)
    ensures r.Ok? ==> |r.value| == |xs|
    decreases xs
  {
    if xs == [] then Ok([])
    else
      var init :- RewriteItems(xs[..|xs| - 1], f);
      var v :- Rewrite(xs[|xs| - 1], f);
      Ok(init + [v])
  }

  /** The message of the first string of `ss` on which `f` fails. */
  function FirstFailure(ss: seq<string>, f: string -> Result<Json>): Option<string>
  {
    if ss == [] then None
    else if f(ss[0]).Err? then Some(f(ss[0]).msg)
    else FirstFailure(ss[1..], f)
  }

  /** The strings `f` is applied to when it is applied to those of `ss` in
      order until it first fails. */
  function Attempted(ss: seq<string>, f: string -> Result<Json>): seq<string>
  {
    if ss == [] then []
    else if f(ss[0]).Err? then [ss[0]]
    else [ss[0]] + Attempted(ss[1..], f)
  }

  // ---------------------------------------------------------------------------
  // The walker itself: `obj[k] = obj_iterate(obj[k], f)` and
  // `obj[i] = obj_iterate(v, f)`, one position at a time
  // ---------------------------------------------------------------------------

  /** `obj_iterate(obj, f)`. Besides the result it returns `calls`, the
      strings it passed to `f`, in the order it passed them. */
  method Walk(obj: Json, f: string -> Result<Json>) returns (r: Result<Json>, calls: seq<string>)
    ensures r == Rewrite(obj, f)
    ensures calls == Attempted(Marks(obj), f)
    ensures r.Ok? ==> calls == Marks(obj)
    decreases obj
  {
    match obj {
      case JObj(ms) =>
        var ms', c := WalkMembers(ms, f);
        calls := c;
        r := if ms'.Ok? then Ok(JObj(ms'.value)) else Err(ms'.msg);
      case JArr(xs) =>
        var xs', c := WalkItems(xs, f);
        calls := c;
        r := if xs'.Ok? then Ok(JArr(xs'.value)) else Err(xs'.msg);
      case JStr(s) =>
        if IsMarked(s) {
          r := f(s);
          calls := [s];
        } else {
          r := Ok(obj);
          calls := [];
        }
      case _ =>
        r := Ok(obj);
        calls := [];
    }
    if r.Ok? {
      ErrorOfRewrite(obj, f);
      AttemptedAll(Marks(obj), f);
    }
  }

  /** The dict branch of `obj_iterate`: each value in turn is replaced by its
      rewritten form; an exception from `f` leaves the loop at once. */
  method WalkMembers(ms: Members, f: string -> Result<Json>) returns (r: Result<Members>, calls: seq<string>)
    ensures r == RewriteMembers(ms, f)
    ensures calls == Attempted(MarksMembers(ms), f)
    ensures r.Ok? ==> calls == MarksMembers(ms)
    decreases ms
  {
    var cur := ms;
    var i := 0;
    calls := [];
    while i < |cur|
      invariant 0 <= i <= |cur| == |ms|
      invariant cur[i..] == ms[i..]
      invariant RewriteMembers(ms[..i], f) == Ok(cur[..i])
      invariant calls == MarksMembers(ms[..i])
      invariant FirstFailure(calls, f) == None
    {
      var entry := cur[i];
      assert entry == ms[i];
      assert entry.1 < entry;
      var v, c := Walk(entry.1, f);
      assert ms[..i + 1][..i] == ms[..i];
      if v.Err? {
        MembersFailAt(ms, i, f);
        r := Err(v.msg);
        calls := calls + c;
        return;
      }
      cur := cur[i := (entry.0, v.value)];
      assert cur[i + 1..] == ms[i + 1..];
      assert cur[..i + 1] == cur[..i] + [(entry.0, v.value)];
      ErrorOfMembers(ms[..i + 1], f);
      ErrorOfRewrite(entry.1, f);
      AttemptedAll(Marks(entry.1), f);
      calls := calls + c;
      i := i + 1;
    }
    assert ms[..i] == ms && cur[..i] == cur;
    AttemptedAll(calls, f);
    r := Ok(cur);
  }

  /** The list branch of `obj_iterate`. */
  method WalkItems(xs: seq<Json>, f: string -> Result<Json>) returns (r: Result<seq<Json>>, calls: seq<string>)
    ensures r == RewriteItems(xs, f)
    ensures calls == Attempted(MarksItems(xs), f)
    ensures r.Ok? ==> calls == MarksItems(xs)
    decreases xs
  {
    var cur := xs;
    var i := 0;
    calls := [];
    while i < |cur|
      invariant 0 <= i <= |cur| == |xs|
      invariant cur[i..] == xs[i..]
      invariant RewriteItems(xs[..i], f) == Ok(cur[..i])
      invariant calls == MarksItems(xs[..i])
      invariant FirstFailure(calls, f) == None
    {
      var v, c := Walk(cur[i], f);
      assert cur[i] == xs[i];
      assert xs[..i + 1][..i] == xs[..i];
      if v.Err? {
        ItemsFailAt(xs, i, f);
        r := Err(v.msg);
        calls := calls + c;
        return;
      }
      cur := cur[i := v.value];
      assert cur[i + 1..] == xs[i + 1..];
      assert cur[..i + 1] == cur[..i] + [v.value];
      ErrorOfItems(xs[..i + 1], f);
      ErrorOfRewrite(xs[i], f);
      AttemptedAll(Marks(xs[i]), f);
      calls := calls + c;
      i := i + 1;
    }
    assert xs[..i] == xs && cur[..i] == cur;
    AttemptedAll(calls, f);
    r := Ok(cur);
  }

  // ---------------------------------------------------------------------------
  // Lemmas on sequences of marked strings
  // ---------------------------------------------------------------------------

  lemma {:induction false} FirstFailureAppend(a: seq<string>, b: seq<string>, f: string -> Result<Json>)
    ensures FirstFailure(a + b, f) == if FirstFailure(a, f).Some? then FirstFailure(a, f) else FirstFailure(b, f)
  {
    if a != [] {
      assert (a + b)[1..] == a[1..] + b;
      FirstFailureAppend(a[1..], b, f);
    } else {
      assert a + b == b;
    }
  }

  lemma {:induction false} AttemptedAppend(a: seq<string>, b: seq<string>, f: string -> Result<Json>)
    ensures Attempted(a + b, f) == if FirstFailure(a, f).Some? then Attempted(a, f) else a + Attempted(b, f)
  {
    if a != [] {
      assert (a + b)[1..] == a[1..] + b;
      AttemptedAppend(a[1..], b, f);
    } else {
      assert a + b == b;
    }
  }

  /** If `f` fails on none of `ss`, it is applied to all of them. */
  lemma {:induction false} AttemptedAll(ss: seq<string>, f: string -> Result<Json>)
    requires FirstFailure(ss, f) == None
    ensures Attempted(ss, f) == ss
  {
    if ss != [] {
      AttemptedAll(ss[1..], f);
    }
  }

  lemma {:induction false} MarksMembersAppend(a: Members, b: Members)
    ensures MarksMembers(a + b) == MarksMembers(a) + MarksMembers(b)
    decreases |b|
  {
    if b == [] {
      assert a + b == a;
    } else {
      var n := |b| - 1;
      assert (a + b)[..|a + b| - 1] == a + b[..n];
      MarksMembersAppend(a, b[..n]);
    }
  }

  lemma {:induction false} MarksItemsAppend(a: seq<Json>, b: seq<Json>)
    ensures MarksItems(a + b) == MarksItems(a) + MarksItems(b)
    decreases |b|
  {
    if b == [] {
      assert a + b == a;
    } else {
      var n := |b| - 1;
      assert (a + b)[..|a + b| - 1] == a + b[..n];
      MarksItemsAppend(a, b[..n]);
    }
  }

  // ---------------------------------------------------------------------------
  // Properties of the rewrite
  // ---------------------------------------------------------------------------

  /** Fail-fast in traversal order: the walk fails exactly when `f` fails on
      one of the marked strings, and then with the error of the first one. */
  lemma {:induction false} ErrorOfRewrite(t: Json, f: string -> Result<Json>)
    ensures ErrorOf(Rewrite(t, f)) == FirstFailure(Marks(t), f)
    decreases t
  {
    match t {
      case JObj(ms) => ErrorOfMembers(ms, f);
      case JArr(xs) => ErrorOfItems(xs, f);
      case JStr(s) =>
      case _ =>
    }
  }

  lemma {:induction false} ErrorOfMembers(ms: Members, f: string -> Result<Json>)
    ensures ErrorOf(RewriteMembers(ms, f)) == FirstFailure(MarksMembers(ms), f)
    decreases ms
  {
    if ms != [] {
      var last := ms[|ms| - 1];
      assert last.1 < last;
      ErrorOfMembers(ms[..|ms| - 1], f);
      ErrorOfRewrite(last.1, f);
      FirstFailureAppend(MarksMembers(ms[..|ms| - 1]), Marks(last.1), f);
    }
  }

  lemma {:induction false} ErrorOfItems(xs: seq<Json>, f: string -> Result<Json>)
    ensures ErrorOf(RewriteItems(xs, f)) == FirstFailure(MarksItems(xs), f)
    decreases xs
  {
    if xs != [] {
      ErrorOfItems(xs[..|xs| - 1], f);
      ErrorOfRewrite(xs[|xs| - 1], f);
      FirstFailureAppend(MarksItems(xs[..|xs| - 1]), Marks(xs[|xs| - 1]), f);
    }
  }

  /** When the value at position `i` of a dict fails to rewrite after all
      those before it succeeded, the dict fails with that error, and `f`
      has been applied to the marks before it and to those of that value
      up to its first failure. */
  lemma {:induction false} MembersFailAt(ms: Members, i: nat, f: string -> Result<Json>)
    requires i < |ms|
    requires FirstFailure(MarksMembers(ms[..i]), f) == None
    requires Rewrite(ms[i].1, f).Err?
    ensures RewriteMembers(ms, f) == Err(Rewrite(ms[i].1, f).msg)
    ensures Attempted(MarksMembers(ms), f) == MarksMembers(ms[..i]) + Attempted(Marks(ms[i].1), f)
  {
    var a, b, c := MarksMembers(ms[..i]), Marks(ms[i].1), MarksMembers(ms[i + 1..]);
    assert ms[..i + 1][..i] == ms[..i];
    assert ms == ms[..i + 1] + ms[i + 1..];
    MarksMembersAppend(ms[..i + 1], ms[i + 1..]);
    assert MarksMembers(ms) == a + b + c;
    assert a + b + c == a + (b + c);
    ErrorOfRewrite(ms[i].1, f);
    FirstFailureAppend(b, c, f);
    FirstFailureAppend(a, b + c, f);
    ErrorOfMembers(ms, f);
    AttemptedAppend(a, b + c, f);
    AttemptedAppend(b, c, f);
  }

  lemma {:induction false} ItemsFailAt(xs: seq<Json>, i: nat, f: string -> Result<Json>)
    requires i < |xs|
    requires FirstFailure(MarksItems(xs[..i]), f) == None
    requires Rewrite(xs[i], f).Err?
    ensures RewriteItems(xs, f) == Err(Rewrite(xs[i], f).msg)
    ensures Attempted(MarksItems(xs), f) == MarksItems(xs[..i]) + Attempted(Marks(xs[i]), f)
  {
    var a, b, c := MarksItems(xs[..i]), Marks(xs[i]), MarksItems(xs[i + 1..]);
    assert xs[..i + 1][..i] == xs[..i];
    assert xs == xs[..i + 1] + xs[i + 1..];
    MarksItemsAppend(xs[..i + 1], xs[i + 1..]);
    assert MarksItems(xs) == a + b + c;
    assert a + b + c == a + (b + c);
    ErrorOfRewrite(xs[i], f);
    FirstFailureAppend(b, c, f);
    FirstFailureAppend(a, b + c, f);
    ErrorOfItems(xs, f);
    AttemptedAppend(a, b + c, f);
    AttemptedAppend(b, c, f);
  }

  /** A tree without marked strings comes back as it is, whatever `f` is
      (and `Walk` then applies `f` to nothing). */
  lemma {:induction false} RewriteNoMarks(t: Json, f: string -> Result<Json>)
    requires Marks(t) == []
    ensures Rewrite(t, f) == Ok(t)
    decreases t
  {
    match t {
      case JObj(ms) => MembersNoMarks(ms, f);
      case JArr(xs) => ItemsNoMarks(xs, f);
      case JStr(s) =>
      case _ =>
    }
  }

  lemma {:induction false} MembersNoMarks(ms: Members, f: string -> Result<Json>)
    requires MarksMembers(ms) == []
    ensures RewriteMembers(ms, f) == Ok(ms)
    decreases ms
  {
    if ms != [] {
      var last := ms[|ms| - 1];
      assert last.1 < last;
      MembersNoMarks(ms[..|ms| - 1], f);
      RewriteNoMarks(last.1, f);
      assert ms[..|ms| - 1] + [(last.0, last.1)] == ms;
    }
  }

  lemma {:induction false} ItemsNoMarks(xs: seq<Json>, f: string -> Result<Json>)
    requires MarksItems(xs) == []
    ensures RewriteItems(xs, f) == Ok(xs)
    decreases xs
  {
    if xs != [] {
      ItemsNoMarks(xs[..|xs| - 1], f);
      RewriteNoMarks(xs[|xs| - 1], f);
      assert xs[..|xs| - 1] + [xs[|xs| - 1]] == xs;
    }
  }

  /** `f` is consulted only on the marked strings, each passed whole: two
      evaluators that agree on them give the same result. */
  lemma {:induction false} RewriteAgree(t: Json, f: string -> Result<Json>, g: string -> Result<Json>)
    requires forall s <- Marks(t) :: f(s) == g(s)
    ensures Rewrite(t, f) == Rewrite(t, g)
    decreases t
  {
    match t {
      case JObj(ms) => MembersAgree(ms, f, g);
      case JArr(xs) => ItemsAgree(xs, f, g);
      case JStr(s) =>
      case _ =>
    }
  }

  lemma {:induction false} MembersAgree(ms: Members, f: string -> Result<Json>, g: string -> Result<Json>)
    requires forall s <- MarksMembers(ms) :: f(s) == g(s)
    ensures RewriteMembers(ms, f) == RewriteMembers(ms, g)
    decreases ms
  {
    if ms != [] {
      var last := ms[|ms| - 1];
      assert last.1 < last;
      MembersAgree(ms[..|ms| - 1], f, g);
      RewriteAgree(last.1, f, g);
    }
  }

  lemma {:induction false} ItemsAgree(xs: seq<Json>, f: string -> Result<Json>, g: string -> Result<Json>)
    requires forall s <- MarksItems(xs) :: f(s) == g(s)
    ensures RewriteItems(xs, f) == RewriteItems(xs, g)
    decreases xs
  {
    if xs != [] {
      ItemsAgree(xs[..|xs| - 1], f, g);
      RewriteAgree(xs[|xs| - 1], f, g);
    }
  }

  /** A dict rewrites to `ms'` exactly when `ms'` has the same keys in the same
      order and each of its values is the rewritten value at that position. */
  lemma {:induction false} MembersShape(ms: Members, f: string -> Result<Json>, ms': Members)
    ensures RewriteMembers(ms, f) == Ok(ms') <==>
      |ms'| == |ms| &&
      forall i :: 0 <= i < |ms| ==> ms'[i].0 == ms[i].0 && Rewrite(ms[i].1, f) == Ok(ms'[i].1)
    decreases |ms|
  {
    if ms != [] && ms' != [] {
      var n, m := |ms| - 1, |ms'| - 1;
      MembersShape(ms[..n], f, ms'[..m]);
      assert ms' == ms'[..m] + [ms'[m]];
    }
  }

  /** A list rewrites to `xs'` exactly when `xs'` is as long and each of its
      elements is the rewritten element at that index. */
  lemma {:induction false} ItemsShape(xs: seq<Json>, f: string -> Result<Json>, xs': seq<Json>)
    ensures RewriteItems(xs, f) == Ok(xs') <==>
      |xs'| == |xs| && forall i :: 0 <= i < |xs| ==> Rewrite(xs[i], f) == Ok(xs'[i])
    decreases |xs|
  {
    if xs != [] && xs' != [] {
      var n, m := |xs| - 1, |xs'| - 1;
      ItemsShape(xs[..n], f, xs'[..m]);
      assert xs' == xs'[..m] + [xs'[m]];
    }
  }

  /** Rewriting keeps every dict free of duplicate keys, given that `f` only
      produces such values. */
  lemma {:induction false} RewriteWellFormed(t: Json, f: string -> Result<Json>)
    requires WellFormed(t)
    requires forall s :: f(s).Ok? ==> WellFormed(f(s).value)
    ensures Rewrite(t, f).Ok? ==> WellFormed(Rewrite(t, f).value)
    decreases t
  {
    match t {
      case JObj(ms) =>
        var r := RewriteMembers(ms, f);
        if r.Ok? {
          MembersShape(ms, f, r.value);
          MembersWellFormedPreserved(ms, f);
        }
      case JArr(xs) => ItemsWellFormedPreserved(xs, f);
      case JStr(s) =>
      case _ =>
    }
  }

  lemma {:induction false} MembersWellFormedPreserved(ms: Members, f: string -> Result<Json>)
    requires MembersWellFormed(ms)
    requires forall s :: f(s).Ok? ==> WellFormed(f(s).value)
    ensures RewriteMembers(ms, f).Ok? ==> MembersWellFormed(RewriteMembers(ms, f).value)
    decreases ms
  {
    if ms != [] {
      var last := ms[|ms| - 1];
      assert last.1 < last;
      MembersWellFormedPreserved(ms[..|ms| - 1], f);
      RewriteWellFormed(last.1, f);
      var r := RewriteMembers(ms, f);
      if r.Ok? {
        var init := RewriteMembers(ms[..|ms| - 1], f).value;
        assert r.value[..|r.value| - 1] == init;
      }
    }
  }

  lemma {:induction false} ItemsWellFormedPreserved(xs: seq<Json>, f: string -> Result<Json>)
    requires ItemsWellFormed(xs)
    requires forall s :: f(s).Ok? ==> WellFormed(f(s).value)
    ensures RewriteItems(xs, f).Ok? ==> ItemsWellFormed(RewriteItems(xs, f).value)
    decreases xs
  {
    if xs != [] {
      ItemsWellFormedPreserved(xs[..|xs| - 1], f);
      RewriteWellFormed(xs[|xs| - 1], f);
      var r := RewriteItems(xs, f);
      if r.Ok? {
        var init := RewriteItems(xs[..|xs| - 1], f).value;
        assert r.value[..|r.value| - 1] == init;
      }
    }
  }

  /** The snippet of the single-pass example below. */
  const OuterSnippet: string := "#!jsonnet {b: '#!jsonnet 1'}"

  /** What that snippet evaluates to: a dict whose value is itself marked. */
  const InnerValue: Json := JObj([("b", JStr("#!jsonnet 1"))])

  function EchoInner(s: string): Result<Json>
  {
    if s == OuterSnippet then Ok(InnerValue) else Err("unexpected snippet")
  }

  /** Single pass: a snippet whose value holds a marked string is spliced in
      with that string left as it is; `f` is applied to the outer snippet only. */
  lemma SinglePassExample()
    ensures Rewrite(JObj([("a", JStr(OuterSnippet))]), EchoInner) == Ok(JObj([("a", InnerValue)]))
    ensures Attempted(Marks(JObj([("a", JStr(OuterSnippet))])), EchoInner) == [OuterSnippet]
  {
    var ms := [("a", JStr(OuterSnippet))];
    assert IsMarked(OuterSnippet);
    assert ms[..0] == [];
    assert Rewrite(JStr(OuterSnippet), EchoInner) == EchoInner(OuterSnippet) == Ok(InnerValue);
    MembersShape(ms, EchoInner, [("a", InnerValue)]);
    assert RewriteMembers(ms, EchoInner) == Ok([("a", InnerValue)]);
    assert MarksMembers(ms) == [OuterSnippet];
  }
}
