/** Options and flattened sequences, shared by the other modules. */
module Seqs {

  datatype Option<+T> = None | Some(value: T)

  function Flatten<T>(xss: seq<seq<T>>): seq<T> {
    if xss == [] then [] else xss[0] + Flatten(xss[1..])
  }

  lemma {:induction false} FlattenConcat<T>(xss: seq<seq<T>>, yss: seq<seq<T>>)
    ensures Flatten(xss + yss) == Flatten(xss) + Flatten(yss)
  {
    if xss == [] {
      assert xss + yss == yss;
    } else {
      var whole := xss + yss;
      assert whole[0] == xss[0] && whole[1..] == xss[1..] + yss;
      FlattenConcat(xss[1..], yss);
      var rest, after := Flatten(xss[1..]), Flatten(yss);
      assert xss[0] + (rest + after) == (xss[0] + rest) + after;
    }
  }

  lemma Regroup<T>(past: seq<T>, rest: seq<T>)
    requires rest != []
    ensures (past + [rest[0]]) + rest[1..] == past + rest
  {
  }

  lemma Associate<T>(a: seq<T>, b: seq<T>, c: seq<T>)
    ensures (a + b) + c == a + (b + c)
  {
  }

  lemma FlattenSnoc<T>(xss: seq<seq<T>>, ys: seq<T>)
    ensures Flatten(xss + [ys]) == Flatten(xss) + ys
  {
    FlattenConcat(xss, [ys]);
    assert Flatten([ys]) == ys + Flatten<T>([]);
  }

  /** The first element that satisfies the predicate. */
  function FirstThat<T>(xs: seq<T>, f: T -> bool): Option<T> {
    if xs == [] then None else if f(xs[0]) then Some(xs[0]) else FirstThat(xs[1..], f)
  }

  lemma {:induction false} FirstThatIs<T>(xs: seq<T>, f: T -> bool, i: nat)
    requires i <= |xs| && (i < |xs| ==> f(xs[i])) && forall j :: 0 <= j < i ==> !f(xs[j])
    ensures FirstThat(xs, f) == if i < |xs| then Some(xs[i]) else None
  {
    if i > 0 {
      assert !f(xs[0]);
      forall j | 0 <= j < i - 1 ensures !f(xs[1..][j]) {
        assert xs[1..][j] == xs[j + 1];
      }
      FirstThatIs(xs[1..], f, i - 1);
    }
  }

  lemma {:induction false} FirstThatConcat<T>(a: seq<T>, b: seq<T>, f: T -> bool)
    ensures FirstThat(a + b, f) == if FirstThat(a, f).Some? then FirstThat(a, f) else FirstThat(b, f)
  {
    if a == [] {
      assert a + b == b;
    } else {
      assert (a + b)[0] == a[0] && (a + b)[1..] == a[1..] + b;
      FirstThatConcat(a[1..], b, f);
    }
  }

  lemma {:induction false} FirstThatExists<T>(xs: seq<T>, f: T -> bool, i: nat)
    requires i < |xs| && f(xs[i])
    ensures FirstThat(xs, f).Some?
  {
    if !f(xs[0]) {
      assert xs[1..][i - 1] == xs[i];
      FirstThatExists(xs[1..], f, i - 1);
    }
  }

  lemma {:induction false} FirstThatHolds<T>(xs: seq<T>, f: T -> bool)
    ensures FirstThat(xs, f).Some? ==> FirstThat(xs, f).value in xs && f(FirstThat(xs, f).value)
  {
    if xs != [] && !f(xs[0]) {
      FirstThatHolds(xs[1..], f);
    }
  }
}
