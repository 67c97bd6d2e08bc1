/** The rows of syscall ids that the tracepoint program shares with the kernel: 120 slots for each
    pid namespace, ended by -1 when there are fewer. */
module SyscallRows {
  const SLOTS: nat := 120

  /** tracepoints_map: names to syscall numbers. */
  type SyscallIds = map<string, int>

  predicate Numbers(ids: SyscallIds) {
    forall name :: name in ids ==> ids[name] >= 0
  }

  /** The known names of a list, as ids, in order. */
  function Known(ids: SyscallIds, names: seq<string>): seq<int> {
    if names == [] then []
    else
      var last := names[|names| - 1];
      Known(ids, names[..|names| - 1]) + if last in ids then [ids[last]] else []
  }

  lemma {:induction false} KnownIsNonNegative(ids: SyscallIds, names: seq<string>)
    requires Numbers(ids)
    ensures forall i :: 0 <= i < |Known(ids, names)| ==> Known(ids, names)[i] >= 0
  {
    if names != [] {
      KnownIsNonNegative(ids, names[..|names| - 1]);
    }
  }

  /** The places below `k` that hold known names. */
  function KnownBefore(ids: SyscallIds, names: seq<string>, k: nat): set<nat>
    requires k <= |names|
  {
    set j: nat | j < k && names[j] in ids
  }

  lemma KnownBeforeNext(ids: SyscallIds, names: seq<string>, k: nat)
    requires k < |names|
    ensures |KnownBefore(ids, names, k + 1)| == |KnownBefore(ids, names, k)| + if names[k] in ids then 1 else 0
  {
    var before := KnownBefore(ids, names, k);
    assert KnownBefore(ids, names, k + 1) == if names[k] in ids then before + {k} else before;
  }

  /** Each known name gives its id, in the order of the names: the k-th name comes after as many ids as
      there are known names before it. */
  lemma {:induction false} KnownAre(ids: SyscallIds, names: seq<string>)
    ensures |Known(ids, names)| == |KnownBefore(ids, names, |names|)|
    ensures forall k :: 0 <= k < |names| && names[k] in ids ==>
              && |KnownBefore(ids, names, k)| < |Known(ids, names)|
              && Known(ids, names)[|KnownBefore(ids, names, k)|] == ids[names[k]]
  {
    if names == [] {
      assert KnownBefore(ids, names, 0) == {};
    } else {
      var n := |names| - 1;
      KnownAre(ids, names[..n]);
      forall k: nat | k <= n ensures KnownBefore(ids, names[..n], k) == KnownBefore(ids, names, k) {}
      KnownBeforeNext(ids, names, n);
    }
  }

  /** And nothing else is in the list. */
  lemma {:induction false} KnownComesFrom(ids: SyscallIds, names: seq<string>, i: nat)
    requires i < |Known(ids, names)|
    ensures exists k :: 0 <= k < |names| && names[k] in ids && |KnownBefore(ids, names, k)| == i
                        && Known(ids, names)[i] == ids[names[k]]
  {
    var n := |names| - 1;
    KnownAre(ids, names[..n]);
    KnownAre(ids, names);
    forall k: nat | k <= n ensures KnownBefore(ids, names[..n], k) == KnownBefore(ids, names, k) {}
    if i < |Known(ids, names[..n])| {
      KnownComesFrom(ids, names[..n], i);
      var k :| 0 <= k < n && names[..n][k] in ids && |KnownBefore(ids, names[..n], k)| == i
               && Known(ids, names[..n])[i] == ids[names[..n][k]];
      assert names[k] == names[..n][k];
    } else {
      assert |KnownBefore(ids, names, n)| == i && names[n] in ids;
    }
  }

  /** The list has the id: at a place with fewer than 120 known names before it. */
  predicate Asks(ids: SyscallIds, names: seq<string>, id: int) {
    exists k :: 0 <= k < |names| && names[k] in ids && ids[names[k]] == id
                && |set j: nat | j < k && names[j] in ids| < 120
  }

  /** The ids asked for are those of the names that are known and have fewer than 120 known names before
      them, in the order of the names. */
  lemma WantedAre(ids: SyscallIds, names: seq<string>, id: int)
    ensures id in Wanted(ids, names) <==> Asks(ids, names, id)
    ensures forall k :: 0 <= k < |names| && names[k] in ids && |KnownBefore(ids, names, k)| < 120 ==>
              && |KnownBefore(ids, names, k)| < |Wanted(ids, names)|
              && Wanted(ids, names)[|KnownBefore(ids, names, k)|] == ids[names[k]]
  {
    KnownAre(ids, names);
    if id in Wanted(ids, names) {
      var i :| 0 <= i < |Wanted(ids, names)| && Wanted(ids, names)[i] == id;
      KnownComesFrom(ids, names, i);
      var k :| 0 <= k < |names| && names[k] in ids && |KnownBefore(ids, names, k)| == i && id == ids[names[k]];
      assert KnownBefore(ids, names, k) == set j: nat | j < k && names[j] in ids;
    }
    if Asks(ids, names, id) {
      var k :| 0 <= k < |names| && names[k] in ids && ids[names[k]] == id
               && |set j: nat | j < k && names[j] in ids| < 120;
      assert KnownBefore(ids, names, k) == set j: nat | j < k && names[j] in ids;
      assert Wanted(ids, names)[|KnownBefore(ids, names, k)|] == id;
    }
  }

  /** string_to_syscalls: an unknown name becomes -1. */
  method StringToSyscalls(ids: SyscallIds, names: seq<string>) returns (syscalls: seq<int>)
    ensures |syscalls| == |names|
    ensures forall i :: 0 <= i < |names| ==> syscalls[i] == if names[i] in ids then ids[names[i]] else -1
  {
    syscalls := [];
    for i := 0 to |names|
      invariant |syscalls| == i
      invariant forall j :: 0 <= j < i ==> syscalls[j] == if names[j] in ids then ids[names[j]] else -1
    {
      syscalls := syscalls + [if names[i] in ids then ids[names[i]] else -1];
    }
  }

  function FirstSlots(list: seq<int>): seq<int> {
    if |list| > SLOTS then list[..SLOTS] else list
  }

  /** What the policy asks the kernel to log: the first 120 known names. */
  function Wanted(ids: SyscallIds, names: seq<string>): (r: seq<int>)
    ensures |r| <= SLOTS
  {
    FirstSlots(Known(ids, names))
  }

  lemma WantedIsNonNegative(ids: SyscallIds, names: seq<string>)
    requires Numbers(ids)
    ensures -1 !in Wanted(ids, names)
  {
    KnownIsNonNegative(ids, names);
  }

  /** Convert, erase the unknown ones, cut at 120. */
  method SyscallList(ids: SyscallIds, names: seq<string>) returns (list: seq<int>)
    requires Numbers(ids)
    ensures list == Wanted(ids, names)
    ensures forall id :: id in list <==> Asks(ids, names, id)
  {
    var all := StringToSyscalls(ids, names);
    list := [];
    for i := 0 to |all|
      invariant list == Known(ids, names[..i])
    {
      assert names[..i + 1][..i] == names[..i];
      if all[i] != -1 {
        list := list + [all[i]];
      }
    }
    assert names[..|names|] == names;
    if |list| > SLOTS {
      list := list[..SLOTS];
    }
    forall id ensures id in list <==> Asks(ids, names, id) {
      WantedAre(ids, names, id);
    }
  }

  /** A row: the list, then -1 up to the end. */
  function Padded(list: seq<int>): (row: seq<int>)
    requires |list| <= SLOTS
    ensures |row| == SLOTS
  {
    list + seq(SLOTS - |list|, _ => -1)
  }

  method FillRow(list: seq<int>) returns (row: seq<int>)
    requires |list| <= SLOTS
    ensures row == Padded(list)
    ensures |row| == 120 && row[..|list|] == list && forall i :: |list| <= i < 120 ==> row[i] == -1
  {
    var slots := new int[SLOTS](_ => -1);
    for i := 0 to |list|
      invariant slots[..i] == list[..i]
      invariant forall j :: i <= j < SLOTS ==> slots[j] == -1
    {
      slots[i] := list[i];
    }
    row := slots[..];
  }

  /** The kernel's scan: up to the id or to the first -1. */
  method ShouldLogEvent(rows: map<nat, seq<int>>, ns: nat, id: int) returns (r: bool)
    requires forall k :: k in rows ==> |rows[k]| == SLOTS
    ensures r <==> ns in rows && Scan(rows[ns], id)
  {
    if ns !in rows {
      return false;
    }
    var row := rows[ns];
    for i := 0 to SLOTS
      invariant forall j :: 0 <= j < i ==> row[j] != id && row[j] != -1
    {
      if row[i] == id {
        return true;
      }
      if row[i] == -1 {
        return false;
      }
    }
    r := false;
  }

  ghost predicate Scan(row: seq<int>, id: int) {
    exists i :: 0 <= i < |row| && row[i] == id && forall j :: 0 <= j < i ==> row[j] != -1 && row[j] != id
  }

  lemma {:induction false} FirstOccurrence(list: seq<int>, id: int) returns (i: nat)
    requires id in list
    ensures i < |list| && list[i] == id && forall j :: 0 <= j < i ==> list[j] != id
  {
    if list[0] == id {
      i := 0;
    } else {
      i := FirstOccurrence(list[1..], id);
      i := i + 1;
    }
  }

  /** Scanning a row finds exactly the ids that were listed; the id -1 is found exactly when the row
      has room for a sentinel. */
  lemma ScanFindsListed(list: seq<int>, id: int)
    requires |list| <= SLOTS && -1 !in list
    ensures id != -1 ==> (Scan(Padded(list), id) <==> id in list)
    ensures Scan(Padded(list), -1) <==> |list| < SLOTS
  {
    var row := Padded(list);
    if id in list {
      var i := FirstOccurrence(list, id);
      assert row[i] == id && forall j :: 0 <= j < i ==> row[j] != -1 && row[j] != id;
    }
    if |list| < SLOTS {
      assert row[|list|] == -1;
    }
    if Scan(row, -1) {
      var i :| 0 <= i < |row| && row[i] == -1 && forall j :: 0 <= j < i ==> row[j] != -1;
      assert i >= |list|;
    }
  }
}
