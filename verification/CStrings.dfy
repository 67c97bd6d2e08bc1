/** Character buffers that hold C strings, and the two loops that touch them: the strcpy of the
    policy compiler and the kernel's compare_strings. */
module CStrings {
  import opened Flags

  const NUL: char := '\0'

  /** The C string in a buffer: everything before the first NUL. */
  function CString(buf: seq<char>): seq<char> {
    if buf == [] || buf[0] == NUL then [] else [buf[0]] + CString(buf[1..])
  }

  lemma {:induction false} CStringPrefix(buf: seq<char>)
    ensures CString(buf) <= buf && NUL !in CString(buf)
    ensures |CString(buf)| < |buf| ==> buf[|CString(buf)|] == NUL
  {
    if buf != [] && buf[0] != NUL {
      CStringPrefix(buf[1..]);
    }
  }

  lemma {:induction false} CStringAt(buf: seq<char>, k: nat)
    requires k <= |buf| && NUL !in buf[..k]
    requires k < |buf| ==> buf[k] == NUL
    ensures CString(buf) == buf[..k]
  {
    if k > 0 {
      assert buf[0] == buf[..k][0] && buf[1..][..k - 1] == buf[..k][1..];
      CStringAt(buf[1..], k - 1);
    }
  }

  /** strcpy: the string and its NUL overwrite the front of the buffer, the rest stays. */
  function StrCpy(buf: seq<char>, src: string): (r: seq<char>)
    requires |CString(src)| < |buf|
    ensures |r| == |buf| && CString(r) == CString(src) && NUL in r
  {
    var s := CString(src);
    CStringPrefix(src);
    var r := s + [NUL] + buf[|s| + 1..];
    assert r[|s|] == NUL && r[..|s|] == s;
    CStringAt(r, |s|);
    r
  }

  function UpTo(buf: seq<char>, len: nat): seq<char> {
    if |buf| <= len then buf else buf[..len]
  }

  /** What a rule's path stands for: itself, and everything below it when it is recursive and ends
      in a slash. */
  predicate Covers(rule: seq<char>, recursive: bool, path: seq<char>) {
    rule == path || (recursive && rule != [] && rule[|rule| - 1] == '/' && rule < path)
  }

  /** The kernel's comparison of a rule with a string, limited to `len` characters. It finds a match
      exactly when the rule's C string ends within the limit and covers the other C string. */
  method CompareStrings(a: seq<char>, b: seq<char>, len: nat, flags: Word) returns (r: int)
    requires len <= |a| && (len <= |b| || NUL in b)
    ensures r == 0 || r == 1
    ensures r == 0 <==> NUL in a[..len] && Covers(CString(a), Has(flags, Recursive), CString(UpTo(b, len)))
  {
    var isRecursive := Has(flags, Recursive);
    ghost var seen := UpTo(b, len);
    var i := 0;
    while i < len
      invariant 0 <= i <= len && i <= |seen|
      invariant a[..i] == seen[..i] && NUL !in a[..i]
    {
      assert i < |seen| by {
        assert seen[..|seen|] == seen;
      }
      if a[i] != b[i] {
        CompareDiffers(a, seen, len, i);
        if isRecursive && a[i] == NUL && i > 0 && a[i - 1] == '/' {
          return 0;
        }
        return 1;
      }
      if a[i] == NUL && b[i] == NUL {
        CStringAt(a, i);
        CStringAt(seen, i);
        assert a[i] in a[..len];
        return 0;
      }
      assert a[..i + 1] == a[..i] + [a[i]] && seen[..i + 1] == seen[..i] + [seen[i]];
      i := i + 1;
    }
    r := 1;
  }

  lemma CompareDiffers(a: seq<char>, b: seq<char>, len: nat, i: nat)
    requires i < len <= |a| && i < |b|
    requires a[..i] == b[..i] && NUL !in a[..i] && a[i] != b[i]
    ensures CString(a) != CString(b)
    ensures a[i] == NUL ==> a[i] in a[..len] && CString(a) == a[..i] && CString(a) < CString(b)
    ensures a[i] != NUL ==> !(CString(a) < CString(b))
  {
    CStringPrefix(a);
    CStringPrefix(b);
    if a[i] == NUL {
      CStringAt(a, i);
    }
    CStringReaches(a, i);
    CStringReaches(b, i);
  }

  /** A C string is at least as long as any NUL-free front of its buffer. */
  lemma CStringReaches(buf: seq<char>, i: nat)
    requires i < |buf| && NUL !in buf[..i]
    ensures |CString(buf)| >= i && CString(buf)[..i] == buf[..i]
    ensures buf[i] != NUL ==> |CString(buf)| > i && CString(buf)[i] == buf[i]
    ensures buf[i] == NUL ==> |CString(buf)| == i
  {
    CStringPrefix(buf);
    forall j | 0 <= j < i ensures buf[j] != NUL {
      assert buf[..i][j] in buf[..i];
    }
    if buf[i] == NUL {
      CStringAt(buf, i);
    }
  }
}
