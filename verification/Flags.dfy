/** The policy flags: their bits, their names, and the two conversions over the global flags_map,
    which operator[] extends with a zero entry for every unknown name it is asked for. */
module Flags {
  import opened Seqs

  datatype Flag =
    | Audit | Deny | Allow | Owner | Recursive
    | FileRead | FileWrite | FileExec | FileAppend | FileRename | FileDelete | FileCreate
    | NetConnect | NetSrc | NetDst
    | ProcFork | ProcExec | ProcKill | ProcSetuid

  /** A 32-bit word is the set of positions of its 1 bits: | is union, & is intersection, a test
      for non-zero is a test for non-empty. */
  type Word = w: set<nat> | forall i :: i in w ==> i < 32

  function Position(f: Flag): (k: nat)
    ensures k < 32
  {
    match f
    case Audit => 27
    case Deny => 28
    case Allow => 29
    case Owner => 30
    case Recursive => 31
    case FileRead => 0
    case FileWrite => 1
    case FileExec => 2
    case FileAppend => 3
    case FileRename => 4
    case FileDelete => 5
    case FileCreate => 6
    case NetConnect => 7
    case NetSrc => 8
    case NetDst => 9
    case ProcFork => 11
    case ProcExec => 12
    case ProcKill => 13
    case ProcSetuid => 14
  }

  function Bit(f: Flag): Word {
    {Position(f)}
  }

  /** The bits of the 19 flags. */
  const KNOWN_BITS: Word := {0, 1, 2, 3, 4, 5, 6, 7, 8, 9, 11, 12, 13, 14, 27, 28, 29, 30, 31}

  function Name(f: Flag): string {
    match f
    case Audit => "POLICY_AUDIT"
    case Deny => "POLICY_DENY"
    case Allow => "POLICY_ALLOW"
    case Owner => "POLICY_OWNER"
    case Recursive => "POLICY_RECURSIVE"
    case FileRead => "POLICY_FILE_READ"
    case FileWrite => "POLICY_FILE_WRITE"
    case FileExec => "POLICY_FILE_EXEC"
    case FileAppend => "POLICY_FILE_APPEND"
    case FileRename => "POLICY_FILE_RENAME"
    case FileDelete => "POLICY_FILE_DELETE"
    case FileCreate => "POLICY_FILE_CREATE"
    case NetConnect => "POLICY_NET_CONNECT"
    case NetSrc => "POLICY_NET_SRC"
    case NetDst => "POLICY_NET_DST"
    case ProcFork => "POLICY_PROC_FORK"
    case ProcExec => "POLICY_PROC_EXEC"
    case ProcKill => "POLICY_PROC_KILL"
    case ProcSetuid => "POLICY_PROC_SETUID"
  }

  function Named(name: string): Option<Flag> {
    if name == "POLICY_AUDIT" then Some(Audit)
    else if name == "POLICY_DENY" then Some(Deny)
    else if name == "POLICY_ALLOW" then Some(Allow)
    else if name == "POLICY_OWNER" then Some(Owner)
    else if name == "POLICY_RECURSIVE" then Some(Recursive)
    else if name == "POLICY_FILE_READ" then Some(FileRead)
    else if name == "POLICY_FILE_WRITE" then Some(FileWrite)
    else if name == "POLICY_FILE_EXEC" then Some(FileExec)
    else if name == "POLICY_FILE_APPEND" then Some(FileAppend)
    else if name == "POLICY_FILE_RENAME" then Some(FileRename)
    else if name == "POLICY_FILE_DELETE" then Some(FileDelete)
    else if name == "POLICY_FILE_CREATE" then Some(FileCreate)
    else if name == "POLICY_NET_CONNECT" then Some(NetConnect)
    else if name == "POLICY_NET_SRC" then Some(NetSrc)
    else if name == "POLICY_NET_DST" then Some(NetDst)
    else if name == "POLICY_PROC_FORK" then Some(ProcFork)
    else if name == "POLICY_PROC_EXEC" then Some(ProcExec)
    else if name == "POLICY_PROC_KILL" then Some(ProcKill)
    else if name == "POLICY_PROC_SETUID" then Some(ProcSetuid)
    else None
  }

  lemma NamedName(f: Flag)
    ensures Named(Name(f)) == Some(f)
  {
  }

  lemma NameNamed(name: string)
    ensures Named(name).Some? ==> Name(Named(name).value) == name
  {
  }

  /** The value flags_map gives a name: its bit, or the 0 that operator[] inserts. */
  function Value(name: string): Word {
    match Named(name) case Some(f) => Bit(f) case None => {}
  }

  predicate Has(flags: Word, f: Flag) {
    flags * Bit(f) != {}
  }

  lemma HasPosition(flags: Word, f: Flag)
    ensures Has(flags, f) <==> Position(f) in flags
  {
    assert flags * Bit(f) == if Position(f) in flags then Bit(f) else {};
  }

  /** The flag word of a list of names. */
  function FlagsOf(names: seq<string>): Word {
    if names == [] then {} else FlagsOf(names[..|names| - 1]) + Value(names[|names| - 1])
  }

  lemma PositionInjective(f: Flag, g: Flag)
    requires Position(f) == Position(g)
    ensures f == g
  {
  }

  lemma ValueHas(name: string, f: Flag)
    ensures Position(f) in Value(name) <==> name == Name(f)
  {
    NameNamed(name);
    NamedName(f);
    if Named(name).Some? && Position(f) in Value(name) {
      PositionInjective(f, Named(name).value);
    }
  }

  lemma {:induction false} BitOfList(names: seq<string>, k: nat)
    ensures k in FlagsOf(names) <==> exists i :: 0 <= i < |names| && k in Value(names[i])
  {
    if names != [] {
      var front := names[..|names| - 1];
      BitOfList(front, k);
      forall i | 0 <= i < |front| ensures front[i] == names[i] {}
    }
  }

  /** The names and bits of the header shared with the kernel. */
  const HEADER: seq<(string, nat)> := [
    ("POLICY_FILE_READ", 0), ("POLICY_FILE_WRITE", 1), ("POLICY_FILE_EXEC", 2), ("POLICY_FILE_APPEND", 3),
    ("POLICY_FILE_RENAME", 4), ("POLICY_FILE_DELETE", 5), ("POLICY_FILE_CREATE", 6),
    ("POLICY_NET_CONNECT", 7), ("POLICY_NET_SRC", 8), ("POLICY_NET_DST", 9),
    ("POLICY_PROC_FORK", 11), ("POLICY_PROC_EXEC", 12), ("POLICY_PROC_KILL", 13), ("POLICY_PROC_SETUID", 14),
    ("POLICY_AUDIT", 27), ("POLICY_DENY", 28), ("POLICY_ALLOW", 29), ("POLICY_OWNER", 30), ("POLICY_RECURSIVE", 31)
  ]

  /** A list of one name gives the header's bit for it. */
  lemma SingleNames(i: nat)
    requires i < |HEADER|
    ensures FlagsOf([HEADER[i].0]) == {HEADER[i].1}
  {
    var names := [HEADER[i].0];
    assert FlagsOf(names) == FlagsOf(names[..0]) + Value(names[0]);
    assert FlagsOf(names[..0]) == {};
  }

  /** A flag word has a bit exactly when the list has the name. */
  lemma FlagsOfHas(names: seq<string>, f: Flag)
    ensures Has(FlagsOf(names), f) <==> Name(f) in names
  {
    BitOfList(names, Position(f));
    forall i | 0 <= i < |names| ensures Position(f) in Value(names[i]) <==> names[i] == Name(f) {
      ValueHas(names[i], f);
    }
  }

  lemma KnownPositions(k: nat)
    ensures k in KNOWN_BITS <==> exists f :: Position(f) == k
  {
    if k in KNOWN_BITS {
      assert exists f :: Position(f) == k by {
        assert Position(Audit) == 27 && Position(Deny) == 28 && Position(Allow) == 29 && Position(Owner) == 30;
        assert Position(Recursive) == 31 && Position(FileRead) == 0 && Position(FileWrite) == 1;
        assert Position(FileExec) == 2 && Position(FileAppend) == 3 && Position(FileRename) == 4;
        assert Position(FileDelete) == 5 && Position(FileCreate) == 6 && Position(NetConnect) == 7;
        assert Position(NetSrc) == 8 && Position(NetDst) == 9 && Position(ProcFork) == 11;
        assert Position(ProcExec) == 12 && Position(ProcKill) == 13 && Position(ProcSetuid) == 14;
      }
    }
  }

  /** Only known bits come out of a list of names, and they are those of its known names. */
  lemma FlagsOfPositions(names: seq<string>, k: nat)
    ensures k in FlagsOf(names) <==> exists f :: Position(f) == k && Name(f) in names
  {
    BitOfList(names, k);
    if i :| 0 <= i < |names| && k in Value(names[i]) {
      var f := Named(names[i]).value;
      NameNamed(names[i]);
      assert Position(f) == k && Name(f) in names;
    }
    if f :| Position(f) == k && Name(f) in names {
      FlagsOfHas(names, f);
    }
  }

  // ----- flags_map ---------------------------------------------------------------------------------

  /** flags_map after any history of calls: the 19 known names, and zero for names it was asked for. */
  ghost predicate Consistent(entries: map<string, Word>) {
    && (forall f :: Name(f) in entries)
    && (forall name :: name in entries ==> entries[name] == Value(name))
  }

  /** The order in which std::map iterates. */
  predicate Less(a: string, b: string) {
    b != [] && (a == [] || a[0] < b[0] || (a[0] == b[0] && Less(a[1..], b[1..])))
  }

  /** It is the usual order of strings: a proper prefix comes first, otherwise the smaller character at the
      first place where they differ decides. */
  lemma {:induction false} LessIsLexicographic(a: string, b: string)
    ensures Less(a, b) <==>
            (|a| < |b| && b[..|a|] == a) ||
            (exists i :: 0 <= i < |a| && i < |b| && a[..i] == b[..i] && a[i] < b[i])
  {
    if a != [] && b != [] && a[0] == b[0] {
      LessIsLexicographic(a[1..], b[1..]);
      assert a == [a[0]] + a[1..] && b == [b[0]] + b[1..];
      if i :| 0 <= i < |a[1..]| && i < |b[1..]| && a[1..][..i] == b[1..][..i] && a[1..][i] < b[1..][i] {
        assert a[..i + 1] == [a[0]] + a[1..][..i] && b[..i + 1] == [b[0]] + b[1..][..i];
        assert a[i + 1] < b[i + 1];
      }
      if i :| 0 <= i < |a| && i < |b| && a[..i] == b[..i] && a[i] < b[i] {
        assert i > 0;
        assert a[1..][..i - 1] == a[..i][1..] && b[1..][..i - 1] == b[..i][1..];
        assert a[1..][i - 1] < b[1..][i - 1];
      }
      assert (|a| < |b| && b[..|a|] == a) <==> (|a[1..]| < |b[1..]| && b[1..][..|a[1..]|] == a[1..]) by {
        if |a| < |b| {
          assert b[..|a|] == [b[0]] + b[1..][..|a[1..]|];
        }
      }
    } else if a != [] && b != [] {
      assert forall i :: 0 < i <= |a| && i <= |b| ==> a[..i][0] == a[0] && b[..i][0] == b[0];
      if a[0] < b[0] {
        assert a[..0] == b[..0];
      }
    }
  }

  lemma {:induction false} LessTotal(a: string, b: string)
    requires a != b
    ensures Less(a, b) || Less(b, a)
  {
    if a != [] && b != [] && a[0] == b[0] {
      assert a == [a[0]] + a[1..] && b == [b[0]] + b[1..];
      LessTotal(a[1..], b[1..]);
    }
  }

  lemma {:induction false} LessTransitive(a: string, b: string, c: string)
    requires Less(a, b) && Less(b, c)
    ensures Less(a, c)
  {
    if a != [] && a[0] == b[0] && b[0] == c[0] {
      LessTransitive(a[1..], b[1..], c[1..]);
    }
  }

  lemma {:induction false} LessIrreflexive(a: string)
    ensures !Less(a, a)
  {
    if a != [] {
      LessIrreflexive(a[1..]);
    }
  }

  predicate IsLeast(key: string, keys: set<string>) {
    key in keys && forall x :: x in keys ==> x == key || Less(key, x)
  }

  lemma {:induction false} HasLeast(keys: set<string>) returns (least: string)
    requires keys != {}
    ensures IsLeast(least, keys)
  {
    var x :| x in keys;
    if keys == {x} {
      least := x;
    } else {
      var y := HasLeast(keys - {x});
      LessTotal(x, y);
      least := if Less(x, y) then x else y;
      forall z | z in keys ensures z == least || Less(least, z) {
        if least == x && z != x && z != y {
          LessTransitive(x, y, z);
        }
      }
    }
  }

  ghost predicate Ascending(names: seq<string>) {
    forall i, j :: 0 <= i < j < |names| ==> Less(names[i], names[j])
  }

  /** Ascending lists with the same elements are the same list. */
  lemma {:induction false} AscendingUnique(a: seq<string>, b: seq<string>)
    requires Ascending(a) && Ascending(b)
    requires forall x :: x in a <==> x in b
    ensures a == b
  {
    assert b != [] ==> b[0] in b;
    if a != [] {
      assert a[0] in b && b[0] in a;
      FirstOfAscending(a, b);
      RestOfAscending(a);
      RestOfAscending(b);
      AscendingUnique(a[1..], b[1..]);
    }
  }

  lemma RestOfAscending(a: seq<string>)
    requires Ascending(a) && a != []
    ensures Ascending(a[1..])
    ensures forall x :: x in a[1..] <==> x in a && x != a[0]
  {
    assert a == [a[0]] + a[1..];
    LessIrreflexive(a[0]);
    forall i | 0 <= i < |a[1..]| ensures a[1..][i] != a[0] {
      assert Less(a[0], a[i + 1]);
    }
  }

  lemma FirstOfAscending(a: seq<string>, b: seq<string>)
    requires Ascending(a) && Ascending(b) && a != [] && b != []
    requires a[0] in b && b[0] in a
    ensures a[0] == b[0]
  {
    if a[0] != b[0] {
      var i :| 0 <= i < |b| && b[i] == a[0];
      var j :| 0 <= j < |a| && a[j] == b[0];
      LessTransitive(a[0], b[0], a[0]);
      LessIrreflexive(a[0]);
    }
  }

  /** `names` is the ascending list of the names of the flags in `flags`. */
  ghost predicate Lists(names: seq<string>, flags: Word) {
    Ascending(names) && forall name :: name in names <==> Named(name).Some? && Has(flags, Named(name).value)
  }

  /** string_to_flags after flags_to_string: the word, without bits that no flag has. */
  lemma WordRoundTrip(names: seq<string>, flags: Word)
    requires Lists(names, flags)
    ensures FlagsOf(names) == flags * KNOWN_BITS
  {
    forall k: nat ensures k in FlagsOf(names) <==> k in flags * KNOWN_BITS {
      FlagsOfPositions(names, k);
      KnownPositions(k);
      forall f ensures Name(f) in names <==> Position(f) in flags {
        NamedName(f);
        HasPosition(flags, f);
      }
    }
  }

  /** flags_to_string after string_to_flags: the known names of the list, ascending, each once. */
  lemma NamesRoundTrip(original: seq<string>, names: seq<string>)
    requires Lists(names, FlagsOf(original))
    ensures Ascending(names)
    ensures forall name :: name in names <==> name in original && Named(name).Some?
  {
    forall name ensures name in names <==> name in original && Named(name).Some? {
      if Named(name).Some? {
        FlagsOfHas(original, Named(name).value);
        NameNamed(name);
      }
    }
  }

  class FlagsMap {
    var entries: map<string, Word>

    constructor ()
      ensures Consistent(entries)
    {
      var known := set f: Flag | true :: Name(f);
      entries := map name | name in known :: Value(name);
    }

    method StringToFlags(names: seq<string>) returns (flags: Word)
      requires Consistent(entries)
      modifies this
      ensures Consistent(entries)
      ensures flags == FlagsOf(names)
    {
      flags := {};
      for k := 0 to |names|
        invariant Consistent(entries)
        invariant flags == FlagsOf(names[..k])
      {
        if names[k] !in entries {
          UnknownIsZero(entries, names[k]);
          entries := entries[names[k] := {}];
        }
        assert names[..k + 1][..k] == names[..k];
        flags := flags + entries[names[k]];
      }
      assert names[..|names|] == names;
    }

    method FlagsToString(flags: Word) returns (names: seq<string>)
      requires Consistent(entries)
      ensures Lists(names, flags)
    {
      names := Select(entries, flags);
      SelectedNames(entries, flags, names);
    }
  }

  /** Iterates over the map in key order and keeps the names whose value meets `flags`. */
  method Select(table: map<string, Word>, flags: Word) returns (names: seq<string>)
    ensures Ascending(names)
    ensures forall x :: x in names <==> x in table && flags * table[x] != {}
  {
    names := [];
    var remaining := table.Keys;
    while remaining != {}
      invariant remaining <= table.Keys
      invariant Ascending(names)
      invariant forall i, x :: 0 <= i < |names| && x in remaining ==> Less(names[i], x)
      invariant forall x :: x in names <==> x in table && x !in remaining && flags * table[x] != {}
      decreases |remaining|
    {
      ghost var least := HasLeast(remaining);
      var key :| key in remaining && forall x :: x in remaining ==> x == key || Less(key, x);
      remaining := remaining - {key};
      if flags * table[key] != {} {
        names := names + [key];
      }
    }
  }

  lemma SelectedNames(entries: map<string, Word>, flags: Word, names: seq<string>)
    requires Consistent(entries) && Ascending(names)
    requires forall x :: x in names <==> x in entries && flags * entries[x] != {}
    ensures Lists(names, flags)
  {
    forall name ensures name in names <==> Named(name).Some? && Has(flags, Named(name).value) {
      NameNamed(name);
    }
  }

  lemma UnknownIsZero(entries: map<string, Word>, name: string)
    requires Consistent(entries) && name !in entries
    ensures Value(name) == {}
  {
    NameNamed(name);
  }
}
