/** Validation results and their aggregation: a result is a success value or
    a `CmpError` holding one message, and several results combine, without
    short-circuiting, into all their success values or one error whose
    message joins every failing message with "; ". */
module Errors {
  import opened Strings

  /** `T | CmpError`. `Err(m)` is `cmpError(m)`; `r.Err?` is `isCmpError(r)`. */
  datatype Result<+T> = Ok(value: T) | Err(message: string)

  const Separator := "; "

  /** `cmpError(message)`: an error carrying exactly `message`. */
  function CmpError<T>(message: string): (r: Result<T>)
    ensures r.Err? && r.message == message
  {
    Err(message)
  }

  /** The message a result contributes to a combined error: none for a success. */
  function Messages<T>(r: Result<T>): seq<string> {
    if r.Err? then [r.message] else []
  }

  /** `values.filter(isCmpError).map((err) => err.message)`. */
  function Failures<T>(rs: seq<Result<T>>): (ms: seq<string>)
    ensures |ms| <= |rs|
    ensures |ms| == 0 <==> forall i :: 0 <= i < |rs| ==> rs[i].Ok?
  {
    if |rs| == 0 then [] else Messages(rs[0]) + Failures(rs[1..])
  }

  /** The messages of a concatenation are those of the parts, in order. */
  lemma {:induction false} FailuresAppend<T>(xs: seq<Result<T>>, ys: seq<Result<T>>)
    ensures Failures(xs + ys) == Failures(xs) + Failures(ys)
  {
    if |xs| == 0 {
      assert xs + ys == ys;
    } else {
      assert (xs + ys)[0] == xs[0];
      assert (xs + ys)[1..] == xs[1..] + ys;
      FailuresAppend(xs[1..], ys);
    }
  }

  lemma FailuresCons<T>(x: Result<T>, ys: seq<Result<T>>)
    ensures Failures([x] + ys) == Messages(x) + Failures(ys)
  {
    assert ([x] + ys)[1..] == ys;
  }

  /** Every failing result's message is among the collected messages. */
  lemma {:induction false} FailuresMember<T>(rs: seq<Result<T>>, i: nat) returns (j: nat)
    requires i < |rs| && rs[i].Err?
    ensures j < |Failures(rs)| && Failures(rs)[j] == rs[i].message
  {
    if i == 0 {
      j := 0;
    } else {
      var k := FailuresMember(rs[1..], i - 1);
      j := |Messages(rs[0])| + k;
    }
  }

  /** When `rs[i]` is the only failure, its message is the only one collected. */
  lemma {:induction false} FailuresSingle<T>(rs: seq<Result<T>>, i: nat)
    requires i < |rs| && rs[i].Err?
    requires forall j :: 0 <= j < |rs| && j != i ==> rs[j].Ok?
    ensures Failures(rs) == [rs[i].message]
  {
    if i == 0 {
      assert forall j :: 0 <= j < |rs| - 1 ==> rs[1..][j] == rs[j + 1];
      assert Failures(rs[1..]) == [];
    } else {
      assert rs[1..][i - 1] == rs[i];
      FailuresSingle(rs[1..], i - 1);
    }
  }

  /** The success values of a list without failures, in order. */
  function Values<T>(rs: seq<Result<T>>): (vs: seq<T>)
    requires forall i :: 0 <= i < |rs| ==> rs[i].Ok?
    ensures |vs| == |rs|
    ensures forall i :: 0 <= i < |rs| ==> rs[i] == Ok(vs[i])
  {
    if |rs| == 0 then [] else [rs[0].value] + Values(rs[1..])
  }

  /** `collectCmpErrors(values)`. */
  function Collect<T>(rs: seq<Result<T>>): (r: Result<seq<T>>)
    ensures r.Ok? <==> forall i :: 0 <= i < |rs| ==> rs[i].Ok?
    ensures r.Ok? ==> |r.value| == |rs| && forall i :: 0 <= i < |rs| ==> rs[i] == Ok(r.value[i])
    ensures r.Err? ==> r.message == Join(Failures(rs), Separator)
  {
    if exists i :: 0 <= i < |rs| && rs[i].Err? then CmpError(Join(Failures(rs), Separator))
    else Ok(Values(rs))
  }

  /** A list without failures comes back unchanged; in particular the empty list gives an empty success. */
  lemma CollectAllOk<T>(rs: seq<Result<T>>)
    requires forall i :: 0 <= i < |rs| ==> rs[i].Ok?
    ensures Collect(rs).Ok? && Collect(rs).value == Values(rs)
    ensures Collect<T>([]) == Ok([])
  {
  }

  /** A list that holds exactly one failure gives that failure's message, with no separator. */
  lemma CollectSingleFailure<T>(rs: seq<Result<T>>, i: nat)
    requires i < |rs| && rs[i].Err?
    requires forall j :: 0 <= j < |rs| && j != i ==> rs[j].Ok?
    ensures Collect(rs) == Err(rs[i].message)
  {
    FailuresSingle(rs, i);
  }

  /** A list with failures at `i < j` and nowhere else joins the two messages in list order. */
  lemma CollectTwoFailures<T>(rs: seq<Result<T>>, i: nat, j: nat)
    requires i < j < |rs| && rs[i].Err? && rs[j].Err?
    requires forall k :: 0 <= k < |rs| && k != i && k != j ==> rs[k].Ok?
    ensures Collect(rs) == Err(rs[i].message + Separator + rs[j].message)
  {
    var xs, ys := rs[..j], rs[j..];
    assert rs == xs + ys;
    FailuresAppend(xs, ys);
    assert forall k :: 0 <= k < |xs| ==> xs[k] == rs[k];
    FailuresSingle(xs, i);
    assert forall k :: 0 <= k < |ys| ==> ys[k] == rs[j + k];
    FailuresSingle(ys, 0);
    var ms := Failures(rs);
    assert ms == [rs[i].message, rs[j].message];
    assert ms[1..] == [rs[j].message];
    assert Join(ms, Separator) == rs[i].message + Separator + rs[j].message;
  }

  /** The combined message names every failing result's message. */
  lemma CollectContains<T>(rs: seq<Result<T>>, i: nat)
    requires i < |rs| && rs[i].Err?
    ensures Collect(rs).Err? && Contains(Collect(rs).message, rs[i].message)
  {
    var j := FailuresMember(rs, i);
    JoinContains(Failures(rs), Separator, j);
  }

  /** The combined message is non-empty whenever some failing message is. */
  lemma CollectMessageNonEmpty<T>(rs: seq<Result<T>>, i: nat)
    requires i < |rs| && rs[i].Err? && rs[i].message != ""
    ensures Collect(rs).Err? && Collect(rs).message != ""
  {
    var j := FailuresMember(rs, i);
    JoinNonEmpty(Failures(rs), Separator, j);
  }

  /** `collectCmpErrors4(a, b, c, d)`. */
  function Collect4<A, B, C, D>(a: Result<A>, b: Result<B>, c: Result<C>, d: Result<D>): (r: Result<(A, B, C, D)>)
    ensures r.Ok? <==> a.Ok? && b.Ok? && c.Ok? && d.Ok?
    ensures r.Ok? ==> r.value == (a.value, b.value, c.value, d.value)
    ensures r.Err? ==> r.message == Join(Messages(a) + Messages(b) + Messages(c) + Messages(d), Separator)
  {
    if a.Ok? && b.Ok? && c.Ok? && d.Ok? then Ok((a.value, b.value, c.value, d.value))
    else CmpError(Join(Messages(a) + Messages(b) + Messages(c) + Messages(d), Separator))
  }

  /** When no argument fails with an empty message, a failure of the four-argument form has a non-empty message. */
  lemma Collect4MessageNonEmpty<A, B, C, D>(a: Result<A>, b: Result<B>, c: Result<C>, d: Result<D>)
    requires (a.Err? ==> a.message != "") && (b.Err? ==> b.message != "")
    requires (c.Err? ==> c.message != "") && (d.Err? ==> d.message != "")
    ensures Collect4(a, b, c, d).Err? ==> Collect4(a, b, c, d).message != ""
  {
    var ms := Messages(a) + Messages(b) + Messages(c) + Messages(d);
    if Collect4(a, b, c, d).Err? {
      JoinNonEmpty(ms, Separator, 0);
    }
  }

  /** `collectCmpErrors5(a, b, c, d, e)`. */
  function Collect5<A, B, C, D, E>(a: Result<A>, b: Result<B>, c: Result<C>, d: Result<D>, e: Result<E>): (r: Result<(A, B, C, D, E)>)
    ensures r.Ok? <==> a.Ok? && b.Ok? && c.Ok? && d.Ok? && e.Ok?
    ensures r.Ok? ==> r.value == (a.value, b.value, c.value, d.value, e.value)
    ensures r.Err? ==> r.message == Join(Messages(a) + Messages(b) + Messages(c) + Messages(d) + Messages(e), Separator)
  {
    if a.Ok? && b.Ok? && c.Ok? && d.Ok? && e.Ok? then Ok((a.value, b.value, c.value, d.value, e.value))
    else CmpError(Join(Messages(a) + Messages(b) + Messages(c) + Messages(d) + Messages(e), Separator))
  }

  /** On four results of one type, the fixed-arity combinator agrees with the list one. */
  lemma Collect4AgreesWithCollect<T>(a: Result<T>, b: Result<T>, c: Result<T>, d: Result<T>)
    ensures Collect4(a, b, c, d).Ok? <==> Collect([a, b, c, d]).Ok?
    ensures Collect4(a, b, c, d).Ok? ==>
              var (w, x, y, z) := Collect4(a, b, c, d).value; [w, x, y, z] == Collect([a, b, c, d]).value
    ensures Collect4(a, b, c, d).Err? ==> Collect4(a, b, c, d).message == Collect([a, b, c, d]).message
  {
    var rs := [a, b, c, d];
    if a.Ok? && b.Ok? && c.Ok? && d.Ok? {
      var vs := Collect(rs).value;
      assert rs[0] == Ok(vs[0]) && rs[1] == Ok(vs[1]);
      assert rs[2] == Ok(vs[2]) && rs[3] == Ok(vs[3]);
      assert vs == [vs[0], vs[1], vs[2], vs[3]];
    } else {
      Failures4(a, b, c, d);
      var ma, mb, mc, md := Messages(a), Messages(b), Messages(c), Messages(d);
      assert ma + mb + mc + md == ma + (mb + (mc + md));
    }
  }

  lemma Failures4<T>(a: Result<T>, b: Result<T>, c: Result<T>, d: Result<T>)
    ensures Failures([a, b, c, d]) == Messages(a) + (Messages(b) + (Messages(c) + Messages(d)))
  {
    var t3 := [d];
    FailuresCons(d, []);
    assert [d] + [] == t3;
    var t2 := [c] + t3;
    FailuresCons(c, t3);
    var t1 := [b] + t2;
    FailuresCons(b, t2);
    FailuresCons(a, t1);
    assert [a, b, c, d] == [a] + t1;
  }

  /** On five results of one type, the fixed-arity combinator agrees with the list one. */
  lemma Collect5AgreesWithCollect<T>(a: Result<T>, b: Result<T>, c: Result<T>, d: Result<T>, e: Result<T>)
    ensures Collect5(a, b, c, d, e).Ok? <==> Collect([a, b, c, d, e]).Ok?
    ensures Collect5(a, b, c, d, e).Ok? ==>
              var (v, w, x, y, z) := Collect5(a, b, c, d, e).value; [v, w, x, y, z] == Collect([a, b, c, d, e]).value
    ensures Collect5(a, b, c, d, e).Err? ==> Collect5(a, b, c, d, e).message == Collect([a, b, c, d, e]).message
  {
    if a.Ok? && b.Ok? && c.Ok? && d.Ok? && e.Ok? {
      Collect5AllOk(a, b, c, d, e);
    } else {
      Collect5SomeErr(a, b, c, d, e);
    }
  }

  lemma Collect5SomeErr<T>(a: Result<T>, b: Result<T>, c: Result<T>, d: Result<T>, e: Result<T>)
    requires a.Err? || b.Err? || c.Err? || d.Err? || e.Err?
    ensures Collect([a, b, c, d, e]).Err?
    ensures Collect([a, b, c, d, e]).message == Join(Messages(a) + Messages(b) + Messages(c) + Messages(d) + Messages(e), Separator)
  {
    var rs := [a, b, c, d, e];
    assert rs[0] == a && rs[1] == b && rs[2] == c && rs[3] == d && rs[4] == e;
    Failures5(a, b, c, d, e);
    var ma, mb, mc, md, me := Messages(a), Messages(b), Messages(c), Messages(d), Messages(e);
    assert ma + mb + mc + md + me == ma + (mb + (mc + (md + me)));
  }

  lemma Collect5AllOk<T>(a: Result<T>, b: Result<T>, c: Result<T>, d: Result<T>, e: Result<T>)
    requires a.Ok? && b.Ok? && c.Ok? && d.Ok? && e.Ok?
    ensures Collect([a, b, c, d, e]) == Ok([a.value, b.value, c.value, d.value, e.value])
  {
    var rs := [a, b, c, d, e];
    var vs := Collect(rs).value;
    assert rs[0] == Ok(vs[0]) && rs[1] == Ok(vs[1]) && rs[2] == Ok(vs[2]);
    assert rs[3] == Ok(vs[3]) && rs[4] == Ok(vs[4]);
    assert vs == [vs[0], vs[1], vs[2], vs[3], vs[4]];
  }

  lemma Failures5<T>(a: Result<T>, b: Result<T>, c: Result<T>, d: Result<T>, e: Result<T>)
    ensures Failures([a, b, c, d, e]) == Messages(a) + (Messages(b) + (Messages(c) + (Messages(d) + Messages(e))))
  {
    FailuresCons(a, [b, c, d, e]);
    assert [a, b, c, d, e] == [a] + [b, c, d, e];
    Failures4(b, c, d, e);
  }

  /** Exactly one failing argument: its message is the combined message, unchanged. */
  lemma Collect4SingleFailure<A, B, C, D>(a: Result<A>, b: Result<B>, c: Result<C>, d: Result<D>)
    requires (if a.Err? then 1 else 0) + (if b.Err? then 1 else 0) + (if c.Err? then 1 else 0) + (if d.Err? then 1 else 0) == 1
    ensures Collect4(a, b, c, d) == Err(if a.Err? then a.message else if b.Err? then b.message else if c.Err? then c.message else d.message)
  {
  }

  /** Exactly one failing argument of five: its message is the combined message, unchanged. */
  lemma Collect5SingleFailure<A, B, C, D, E>(a: Result<A>, b: Result<B>, c: Result<C>, d: Result<D>, e: Result<E>)
    requires (if a.Err? then 1 else 0) + (if b.Err? then 1 else 0) + (if c.Err? then 1 else 0)
             + (if d.Err? then 1 else 0) + (if e.Err? then 1 else 0) == 1
    ensures Collect5(a, b, c, d, e) == Err(if a.Err? then a.message else if b.Err? then b.message
                                           else if c.Err? then c.message else if d.Err? then d.message else e.message)
  {
  }

  /** Two failing arguments, all others succeeding: their messages joined by "; " in argument order. */
  lemma Collect4TwoFailures<A, B, C, D>(a: Result<A>, b: Result<B>, c: Result<C>, d: Result<D>)
    requires a.Ok? && b.Err? && c.Ok? && d.Err?
    ensures Collect4(a, b, c, d) == Err(b.message + Separator + d.message)
  {
    var ms := Messages(a) + Messages(b) + Messages(c) + Messages(d);
    assert ms == [b.message, d.message] && ms[1..] == [d.message];
    assert Join(ms, Separator) == b.message + Separator + d.message;
  }
}
