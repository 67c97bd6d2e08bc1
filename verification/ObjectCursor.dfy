/** rfl::Object: a vector of named fields, searched from a cursor that remembers where the last hit was. */
module ObjectCursor {
  import opened Seqs

  type Fields<T> = seq<(string, T)>

  /** The first index from `lo` on, below `hi`, that holds the key, or `hi`. */
  function First<T>(data: Fields<T>, key: string, lo: nat, hi: nat): (r: nat)
    requires lo <= hi <= |data|
    ensures lo <= r <= hi
    ensures forall k :: lo <= k < r ==> data[k].0 != key
    ensures r < hi ==> data[r].0 == key
    decreases hi - lo
  {
    if lo == hi || data[lo].0 == key then lo else First(data, key, lo + 1, hi)
  }

  /** Where a search with the cursor at `i` ends: the first hit going round from `i`, or the size. */
  function Locate<T>(data: Fields<T>, key: string, i: nat): (r: nat)
    requires i <= |data|
    ensures r <= |data|
    ensures r < |data| ==> data[r].0 == key
    ensures r == |data| <==> forall k :: 0 <= k < |data| ==> data[k].0 != key
  {
    var right := First(data, key, i, |data|);
    if right < |data| then right
    else
      var left := First(data, key, 0, i);
      if left < i then left else |data|
  }

  /** How many keys that search compares. */
  function Cost<T>(data: Fields<T>, key: string, i: nat): nat
    requires i <= |data|
  {
    var r := Locate(data, key, i);
    if r == |data| then |data| else if r < i then |data| - i + r + 1 else r - i + 1
  }

  function Moved<T>(data: Fields<T>, key: string, i: nat): (j: nat)
    requires i <= |data|
    ensures j <= |data|
  {
    var r := Locate(data, key, i);
    if r == |data| then i else r + 1
  }

  ghost predicate Distinct<T>(data: Fields<T>) {
    forall a, b :: 0 <= a < b < |data| ==> data[a].0 != data[b].0
  }

  /** What a reader with the cursor at `i` gets for the key. */
  function Lookup<T>(data: Fields<T>, key: string, i: nat): Option<T>
    requires i <= |data|
  {
    var r := Locate(data, key, i);
    if r == |data| then None else Some(data[r].1)
  }

  // ----- the cursor changes the cost, not the answer ---------------------------------------------------

  function AsMap<T>(data: Fields<T>): map<string, T> {
    if data == [] then map[] else AsMap(data[..|data| - 1])[data[|data| - 1].0 := data[|data| - 1].1]
  }

  function InMap<T>(m: map<string, T>, key: string): Option<T> {
    if key in m then Some(m[key]) else None
  }

  lemma {:induction false} AsMapHas<T>(data: Fields<T>, a: nat)
    requires Distinct(data) && a < |data|
    ensures InMap(AsMap(data), data[a].0) == Some(data[a].1)
  {
    var n := |data| - 1;
    if a < n {
      AsMapHas(data[..n], a);
      assert data[a].0 != data[n].0;
    }
  }

  lemma {:induction false} AsMapHasNoMore<T>(data: Fields<T>, key: string)
    ensures key in AsMap(data) <==> exists k :: 0 <= k < |data| && data[k].0 == key
  {
    if data != [] {
      AsMapHasNoMore(data[..|data| - 1], key);
    }
  }

  /** With distinct keys a search from any cursor gives what the association map holds. */
  lemma LookupAgrees<T>(data: Fields<T>, key: string, i: nat)
    requires Distinct(data) && i <= |data|
    ensures Lookup(data, key, i) == InMap(AsMap(data), key)
  {
    AsMapHasNoMore(data, key);
    var r := Locate(data, key, i);
    if r < |data| {
      AsMapHas(data, r);
    }
  }

  ghost predicate CursorIrrelevant<T(!new)>(data: Fields<T>) {
    forall key, i, j :: 0 <= i <= |data| && 0 <= j <= |data| ==> Lookup(data, key, i) == Lookup(data, key, j)
  }

  /** Fields of the same name agree on the value. */
  ghost predicate Coherent<T>(data: Fields<T>) {
    forall a, b :: 0 <= a < |data| && 0 <= b < |data| && data[a].0 == data[b].0 ==> data[a].1 == data[b].1
  }

  lemma HitAtCursor<T>(data: Fields<T>, a: nat)
    requires a < |data|
    ensures Locate(data, data[a].0, a) == a
  {
  }

  /** insert never looks for the key, so a name may occur twice. Then and only then, if the two values
      differ, does the answer depend on which lookups came before. */
  lemma CursorIrrelevantExactly<T(!new)>(data: Fields<T>)
    ensures CursorIrrelevant(data) <==> Coherent(data)
  {
    if CursorIrrelevant(data) {
      forall a, b | 0 <= a < |data| && 0 <= b < |data| && data[a].0 == data[b].0 ensures data[a].1 == data[b].1 {
        HitAtCursor(data, a);
        HitAtCursor(data, b);
        assert Lookup(data, data[a].0, a) == Lookup(data, data[a].0, b);
      }
    }
  }

  // ----- what the searches cost --------------------------------------------------------------------------

  /** No search costs more than one pass, and one for an absent key costs exactly that. */
  lemma CostBounds<T>(data: Fields<T>, key: string, i: nat)
    requires i <= |data|
    ensures Cost(data, key, i) <= |data|
    ensures (forall k :: 0 <= k < |data| ==> data[k].0 != key) ==> Cost(data, key, i) == |data|
  {
    var r := Locate(data, key, i);
    if r < i {
      assert First(data, key, 0, i) == r;
    }
  }

  function TotalCost<T>(data: Fields<T>, i: nat, keys: seq<string>): nat
    requires i <= |data|
    decreases |keys|
  {
    if keys == [] then 0
    else Cost(data, keys[0], i) + TotalCost(data, Moved(data, keys[0], i), keys[1..])
  }

  function CursorAfter<T>(data: Fields<T>, i: nat, keys: seq<string>): (j: nat)
    requires i <= |data|
    ensures j <= |data|
    decreases |keys|
  {
    if keys == [] then i else CursorAfter(data, Moved(data, keys[0], i), keys[1..])
  }

  function Names<T>(data: Fields<T>): (r: seq<string>)
    ensures |r| == |data|
    ensures forall k :: 0 <= k < |data| ==> r[k] == data[k].0
  {
    seq(|data|, k requires 0 <= k < |data| => data[k].0)
  }

  lemma {:induction false} ReadOn<T>(data: Fields<T>, j: nat)
    requires j <= |data|
    ensures TotalCost(data, j, Names(data)[j..]) == |data| - j
    ensures CursorAfter(data, j, Names(data)[j..]) == |data|
    decreases |data| - j
  {
    if j < |data| {
      var keys := Names(data)[j..];
      HitAtCursor(data, j);
      assert keys[0] == data[j].0 && keys[1..] == Names(data)[j + 1..];
      ReadOn(data, j + 1);
    }
  }

  /** From the end of the vector the search starts over, as after loading. */
  lemma EndIsStart<T>(data: Fields<T>, keys: seq<string>)
    requires keys != [] && |data| > 0 && keys[0] == data[0].0
    ensures TotalCost(data, |data|, keys) == TotalCost(data, 0, keys)
    ensures CursorAfter(data, |data|, keys) == CursorAfter(data, 0, keys)
  {
    assert Locate(data, keys[0], |data|) == 0 == Locate(data, keys[0], 0);
  }

  function Passes<T>(data: Fields<T>, rounds: nat): seq<string> {
    if rounds == 0 then [] else Names(data) + Passes(data, rounds - 1)
  }

  lemma {:induction false} CostOfConcat<T>(data: Fields<T>, i: nat, a: seq<string>, b: seq<string>)
    requires i <= |data|
    ensures TotalCost(data, i, a + b) == TotalCost(data, i, a) + TotalCost(data, CursorAfter(data, i, a), b)
    decreases |a|
  {
    if a == [] {
      assert a + b == b;
    } else {
      assert (a + b)[0] == a[0] && (a + b)[1..] == a[1..] + b;
      CostOfConcat(data, Moved(data, a[0], i), a[1..], b);
    }
  }

  lemma OnePass<T>(data: Fields<T>, i: nat)
    requires i == 0 || i == |data|
    ensures TotalCost(data, i, Names(data)) == |data|
    ensures CursorAfter(data, i, Names(data)) == |data|
  {
    assert Names(data)[0..] == Names(data);
    ReadOn(data, 0);
    if data != [] {
      EndIsStart(data, Names(data));
    }
  }

  /** Reading all n names in the order of insertion, any number of times over, costs one comparison per
      name, right after loading (cursor 0) and after a full pass (cursor n). */
  lemma {:induction false} PassesAreLinear<T>(data: Fields<T>, rounds: nat, i: nat)
    requires i == 0 || i == |data|
    ensures TotalCost(data, i, Passes(data, rounds)) == rounds * |data|
    decreases rounds
  {
    if rounds > 0 {
      OnePass(data, i);
      CostOfConcat(data, i, Names(data), Passes(data, rounds - 1));
      PassesAreLinear(data, rounds - 1, |data|);
      assert rounds * |data| == |data| + (rounds - 1) * |data|;
    }
  }

  // ----- histories ---------------------------------------------------------------------------------------

  datatype Obj<T> = Obj(data: Fields<T>, i: nat)

  datatype Op<T> =
    | Insert(key: string, value: T)
    | Clear
    | Index(key: string)
    | Assign(key: string, value: T)
    | Get(key: string)

  ghost predicate Inv<T>(o: Obj<T>) {
    o.i <= |o.data| && Distinct(o.data)
  }

  /** operator[]: the field is created with the blank value when it is missing. */
  function Touch<T>(o: Obj<T>, blank: T, key: string): (r: Obj<T>)
    requires o.i <= |o.data|
    ensures r.i <= |r.data|
  {
    if Locate(o.data, key, o.i) < |o.data|
    then Obj(o.data, Moved(o.data, key, o.i))
    else Obj(o.data + [(key, blank)], 0)
  }

  /** Where operator[] finds or puts the field. */
  function Slot<T>(o: Obj<T>, key: string): (k: nat)
    requires o.i <= |o.data|
    ensures k <= |o.data|
  {
    Locate(o.data, key, o.i)
  }

  function Write<T>(o: Obj<T>, k: nat, value: T): Obj<T>
    requires k < |o.data|
  {
    o.(data := o.data[k := (o.data[k].0, value)])
  }

  function Apply<T>(o: Obj<T>, blank: T, op: Op<T>): (r: Obj<T>)
    requires o.i <= |o.data|
    ensures r.i <= |r.data|
  {
    match op
    case Insert(k, v) => Obj(o.data + [(k, v)], 0)
    case Clear => Obj([], 0)
    case Index(k) => Touch(o, blank, k)
    case Assign(k, v) => Write(Touch(o, blank, k), Slot(o, k), v)
    case Get(k) => o.(i := Moved(o.data, k, o.i))
  }

  function Answer<T>(o: Obj<T>, blank: T, op: Op<T>): Option<T>
    requires o.i <= |o.data|
  {
    match op
    case Get(k) => Lookup(o.data, k, o.i)
    case Index(k) => Some(Touch(o, blank, k).data[Slot(o, k)].1)
    case _ => None
  }

  function ApplyToMap<T>(m: map<string, T>, blank: T, op: Op<T>): map<string, T> {
    match op
    case Insert(k, v) => m[k := v]
    case Clear => map[]
    case Index(k) => if k in m then m else m[k := blank]
    case Assign(k, v) => m[k := v]
    case Get(_) => m
  }

  function MapAnswer<T>(m: map<string, T>, blank: T, op: Op<T>): Option<T> {
    match op
    case Get(k) => InMap(m, k)
    case Index(k) => Some(if k in m then m[k] else blank)
    case _ => None
  }

  /** What keeps the names distinct: insert is only called with new ones. */
  ghost predicate Fresh<T>(m: map<string, T>, op: Op<T>) {
    op.Insert? ==> op.key !in m
  }

  lemma AppendKeeps<T>(data: Fields<T>, key: string, value: T)
    requires Distinct(data) && key !in AsMap(data)
    ensures Distinct(data + [(key, value)])
    ensures AsMap(data + [(key, value)]) == AsMap(data)[key := value]
  {
    AsMapHasNoMore(data, key);
    var r := data + [(key, value)];
    assert r[..|r| - 1] == data;
  }

  lemma {:induction false} WriteKeeps<T>(data: Fields<T>, k: nat, value: T)
    requires Distinct(data) && k < |data|
    ensures Distinct(data[k := (data[k].0, value)])
    ensures AsMap(data[k := (data[k].0, value)]) == AsMap(data)[data[k].0 := value]
    decreases |data|
  {
    var n := |data| - 1;
    var r := data[k := (data[k].0, value)];
    if k == n {
      assert r[..n] == data[..n];
    } else {
      WriteKeeps(data[..n], k, value);
      assert r[..n] == data[..n][k := (data[k].0, value)];
      assert data[k].0 != data[n].0;
    }
  }

  lemma TouchKeeps<T>(o: Obj<T>, blank: T, key: string)
    requires Inv(o)
    ensures Inv(Touch(o, blank, key))
    ensures AsMap(Touch(o, blank, key).data) == ApplyToMap(AsMap(o.data), blank, Index(key))
    ensures Slot(o, key) < |Touch(o, blank, key).data| && Touch(o, blank, key).data[Slot(o, key)].0 == key
  {
    AsMapHasNoMore(o.data, key);
    if Locate(o.data, key, o.i) == |o.data| {
      AppendKeeps(o.data, key, blank);
    }
  }

  lemma AssignAgrees<T>(o: Obj<T>, blank: T, key: string, value: T)
    requires Inv(o)
    ensures Inv(Apply(o, blank, Assign(key, value)))
    ensures AsMap(Apply(o, blank, Assign(key, value)).data) == AsMap(o.data)[key := value]
  {
    TouchKeeps(o, blank, key);
    var t := Touch(o, blank, key);
    WriteKeeps(t.data, Slot(o, key), value);
    assert AsMap(o.data)[key := value] == AsMap(t.data)[key := value];
  }

  lemma StepAgrees<T>(o: Obj<T>, blank: T, op: Op<T>)
    requires Inv(o) && Fresh(AsMap(o.data), op)
    ensures Inv(Apply(o, blank, op))
    ensures AsMap(Apply(o, blank, op).data) == ApplyToMap(AsMap(o.data), blank, op)
  {
    match op
    case Insert(k, v) => AppendKeeps(o.data, k, v);
    case Clear =>
    case Index(k) => TouchKeeps(o, blank, k);
    case Assign(k, v) => AssignAgrees(o, blank, k, v);
    case Get(_) =>
  }

  lemma AnswerAgrees<T>(o: Obj<T>, blank: T, op: Op<T>)
    requires Inv(o)
    ensures Answer(o, blank, op) == MapAnswer(AsMap(o.data), blank, op)
  {
    match op
    case Get(k) => LookupAgrees(o.data, k, o.i);
    case Index(k) =>
      TouchKeeps(o, blank, k);
      AsMapHas(Touch(o, blank, k).data, Slot(o, k));
    case _ =>
  }

  function Answers<T>(o: Obj<T>, blank: T, ops: seq<Op<T>>): seq<Option<T>>
    requires o.i <= |o.data|
    decreases |ops|
  {
    if ops == [] then [] else [Answer(o, blank, ops[0])] + Answers(Apply(o, blank, ops[0]), blank, ops[1..])
  }

  function MapAnswers<T>(m: map<string, T>, blank: T, ops: seq<Op<T>>): seq<Option<T>>
    decreases |ops|
  {
    if ops == [] then [] else [MapAnswer(m, blank, ops[0])] + MapAnswers(ApplyToMap(m, blank, ops[0]), blank, ops[1..])
  }

  ghost predicate AllFresh<T>(m: map<string, T>, blank: T, ops: seq<Op<T>>)
    decreases |ops|
  {
    ops == [] || (Fresh(m, ops[0]) && AllFresh(ApplyToMap(m, blank, ops[0]), blank, ops[1..]))
  }

  /** Over any history that inserts only new names, every lookup answers as an association map does. */
  lemma {:induction false} HistoryAgrees<T>(o: Obj<T>, blank: T, ops: seq<Op<T>>)
    requires Inv(o) && AllFresh(AsMap(o.data), blank, ops)
    ensures Answers(o, blank, ops) == MapAnswers(AsMap(o.data), blank, ops)
    decreases |ops|
  {
    if ops != [] {
      AnswerAgrees(o, blank, ops[0]);
      StepAgrees(o, blank, ops[0]);
      HistoryAgrees(Apply(o, blank, ops[0]), blank, ops[1..]);
    }
  }

  // ----- the class ----------------------------------------------------------------------------------------

  class Object<T> {
    var data: Fields<T>
    /** Allows faster access; moved even by the const lookups. */
    var i: nat
    /** What T() makes. */
    const blank: T

    ghost predicate Valid()
      reads this
    {
      i <= |data|
    }

    ghost function Value(): Obj<T>
      reads this
    {
      Obj(data, i)
    }

    constructor (blank: T)
      ensures Valid() && Value() == Obj([], 0) && this.blank == blank
    {
      data := [];
      i := 0;
      this.blank := blank;
    }

    /** The two loops of find: from the cursor to the end, then from the start to the cursor. */
    method Find(key: string) returns (r: nat, ghost compared: nat)
      requires Valid()
      modifies this`i
      ensures Valid()
      ensures r == Locate(data, key, old(i)) && i == Moved(data, key, old(i))
      ensures compared == Cost(data, key, old(i))
      // the first hit from the cursor on, or else from the start
      ensures r < |data| ==> data[r].0 == key && i == r + 1
      ensures old(i) <= r < |data| ==> forall k :: old(i) <= k < r ==> data[k].0 != key
      ensures r < old(i) ==>
                && (forall k :: old(i) <= k < |data| ==> data[k].0 != key)
                && (forall k :: 0 <= k < r ==> data[k].0 != key)
      ensures r >= |data| ==> r == |data| && i == old(i) && forall k :: 0 <= k < |data| ==> data[k].0 != key
    {
      ghost var start := i;
      var k := i;
      compared := 0;
      while k < |data|
        invariant i == start <= k <= |data| && compared == k - start
        invariant First(data, key, start, |data|) == First(data, key, k, |data|)
      {
        compared := compared + 1;
        if data[k].0 == key {
          i := k + 1;
          return k, compared;
        }
        k := k + 1;
      }
      k := 0;
      while k < i
        invariant i == start && 0 <= k <= start && compared == |data| - start + k
        invariant First(data, key, 0, start) == First(data, key, k, start)
      {
        compared := compared + 1;
        if data[k].0 == key {
          i := k + 1;
          return k, compared;
        }
        k := k + 1;
      }
      return |data|, compared;
    }

    method Insert(key: string, value: T)
      requires Valid()
      modifies this
      ensures Valid() && Value() == Apply(old(Value()), blank, Op.Insert(key, value))
      ensures data == old(data) + [(key, value)] && i == 0
    {
      data := data + [(key, value)];
      i := 0;
    }

    method InsertAll(fields: Fields<T>)
      requires Valid()
      modifies this
      ensures Valid() && data == old(data) + fields && (fields != [] ==> i == 0)
    {
      ghost var before := data;
      var k := 0;
      while k < |fields|
        invariant Valid() && 0 <= k <= |fields|
        invariant data == before + fields[..k] && (k > 0 ==> i == 0)
      {
        assert fields[..k + 1] == fields[..k] + [fields[k]];
        Insert(fields[k].0, fields[k].1);
        k := k + 1;
      }
      assert fields[..k] == fields;
    }

    method Clear()
      requires Valid()
      modifies this
      ensures Valid() && Value() == Apply(old(Value()), blank, Op.Clear)
      ensures data == [] && i == 0
    {
      data := [];
      i := 0;
    }

    /** operator[]; the reference it returns is the index of the field. */
    method Index(key: string) returns (slot: nat)
      requires Valid()
      modifies this
      ensures Valid() && Value() == Apply(old(Value()), blank, Op.Index(key))
      ensures slot == Slot(old(Value()), key) < |data| && data[slot].0 == key
      ensures (exists k :: 0 <= k < |old(data)| && old(data)[k].0 == key) ==> data == old(data) && i == slot + 1
      ensures (forall k :: 0 <= k < |old(data)| ==> old(data)[k].0 != key) ==>
                data == old(data) + [(key, blank)] && i == 0
    {
      ghost var compared;
      slot, compared := Find(key);
      if slot != |data| {
        return slot;
      }
      data := data + [(key, blank)];
      i := 0;
      return |data| - 1;
    }

    /** Writing through that reference. */
    method Assign(key: string, value: T)
      requires Valid()
      modifies this
      ensures Valid() && Value() == Apply(old(Value()), blank, Op.Assign(key, value))
      ensures exists slot :: 0 <= slot < |data| && data[slot] == (key, value)
    {
      var slot := Index(key);
      data := data[slot := (data[slot].0, value)];
      assert data[slot] == (key, value);
    }

    /** get and at, which differ only in how they report that the name is missing. */
    method Get(key: string) returns (r: Option<T>)
      requires Valid()
      modifies this`i
      ensures Valid() && Value() == Apply(old(Value()), blank, Op.Get(key))
      ensures r == Answer(old(Value()), blank, Op.Get(key))
      ensures r.None? <==> forall k :: 0 <= k < |data| ==> data[k].0 != key
      ensures r.Some? ==> (key, r.value) in data
    {
      var slot;
      ghost var compared;
      slot, compared := Find(key);
      r := if slot == |data| then None else Some(data[slot].1);
    }
  }
}
