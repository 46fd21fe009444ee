/** NUL-terminated strings inside character buffers, and the library functions the loader uses on them. */
module CStrings {
  import opened Basics

  const NUL: char := '\0'

  // ----- strings -----

  /** The index of the first `c`, or the length if there is none. */
  function FirstIndex(s: string, c: char): (i: nat)
    ensures i <= |s| && c !in s[..i] && (i < |s| ==> s[i] == c)
  {
    if s == "" || s[0] == c then 0 else 1 + FirstIndex(s[1..], c)
  }

  /** What precedes the first `c`; everything if there is none. */
  function Before(s: string, c: char): string {
    s[..FirstIndex(s, c)]
  }

  /** What follows the first `c`; empty if there is none. */
  function Beyond(s: string, c: char): string {
    var i := FirstIndex(s, c);
    if i < |s| then s[i + 1..] else ""
  }

  /** The two parts of a string around its first `c`. */
  lemma PartsAroundFirst(s: string, c: char)
    ensures c !in Before(s, c)
    ensures if c in s then s == Before(s, c) + [c] + Beyond(s, c) else Before(s, c) == s && Beyond(s, c) == ""
  {
  }

  /** Whatever splits a string at a `c` with none before it splits it at the first. */
  lemma {:induction false} FirstIndexUnique(head: string, c: char, tail: string)
    requires c !in head
    ensures FirstIndex(head + [c] + tail, c) == |head| && FirstIndex(head, c) == |head|
  {
    if head == "" {
    } else {
      assert (head + [c] + tail)[1..] == head[1..] + [c] + tail;
      FirstIndexUnique(head[1..], c, tail);
    }
  }

  // ----- buffers -----

  /** The C string that starts at `i` is `s`. */
  ghost predicate StringAt(buf: seq<char>, i: nat, s: string) {
    && i + |s| < |buf|
    && buf[i..i + |s|] == s
    && NUL !in s
    && buf[i + |s|] == NUL
  }

  /** Where the first `c` of the string `s` at `i` is. */
  function Found(i: nat, s: string, c: char): Option<nat> {
    if c in s then Some(i + FirstIndex(s, c)) else None
  }

  lemma Characters(buf: seq<char>, i: nat, s: string)
    requires StringAt(buf, i, s)
    ensures forall j :: 0 <= j < |s| ==> buf[i + j] == s[j]
  {
    forall j | 0 <= j < |s|
      ensures buf[i + j] == s[j]
    {
      assert buf[i..i + |s|][j] == buf[i + j];
    }
  }

  /** `strlen`. */
  method StrLen(buf: array<char>, i: nat, ghost s: string) returns (n: nat)
    requires StringAt(buf[..], i, s)
    ensures n == |s|
  {
    assert forall j :: 0 <= j < |s| ==> buf[i + j] == s[j] by { Characters(buf[..], i, s); }
    n := 0;
    while buf[i + n] != NUL
      invariant n <= |s|
      decreases |s| - n
    {
      n := n + 1;
    }
  }

  /** Reads the C string at `i`. */
  method CString(buf: array<char>, i: nat, ghost s: string) returns (t: string)
    requires StringAt(buf[..], i, s)
    ensures t == s
  {
    var n := StrLen(buf, i, s);
    t := buf[i..i + n];
    assert buf[i..i + n] == buf[..][i..i + n];
  }

  /** `strchr` for a character other than NUL. */
  method StrChr(buf: array<char>, i: nat, c: char, ghost s: string) returns (p: Option<nat>)
    requires StringAt(buf[..], i, s) && c != NUL
    ensures p == Found(i, s, c)
  {
    assert forall j :: 0 <= j < |s| ==> buf[i + j] == s[j] by { Characters(buf[..], i, s); }
    var n := 0;
    while buf[i + n] != c && buf[i + n] != NUL
      invariant n <= |s| && c !in s[..n]
      decreases |s| - n
    {
      n := n + 1;
    }
    if buf[i + n] == c {
      assert s == s[..n] + [c] + s[n + 1..];
      FirstIndexUnique(s[..n], c, s[n + 1..]);
      p := Some(i + n);
    } else {
      assert s[..n] == s;
      p := None;
    }
  }

  /** A C string survives any change outside its characters and terminator. */
  lemma StringAtFrame(buf: seq<char>, buf': seq<char>, i: nat, s: string)
    requires StringAt(buf, i, s) && |buf'| == |buf|
    requires forall j :: i <= j <= i + |s| ==> buf'[j] == buf[j]
    ensures StringAt(buf', i, s)
  {
  }

  /** Every end of a C string is a C string. */
  lemma StringTail(buf: seq<char>, i: nat, s: string, k: nat)
    requires StringAt(buf, i, s) && k <= |s|
    ensures StringAt(buf, i + k, s[k..])
  {
    assert buf[i + k..i + |s|] == buf[i..i + |s|][k..];
  }

  /** `strcpy_sx`: a source that does not fit leaves the empty string. */
  method StrCpy(dest: array<char>, at: nat, size: nat, src: string) returns (failed: bool)
    requires 0 < size && at + size <= dest.Length && NUL !in src
    modifies dest
    ensures failed <==> |src| >= size
    ensures StringAt(dest[..], at, if failed then "" else src)
    ensures forall j :: 0 <= j < dest.Length && !(at <= j < at + size) ==> dest[j] == old(dest[j])
  {
    if |src| >= size {
      dest[at] := NUL;
      return true;
    }
    forall i | 0 <= i < |src| {
      dest[at + i] := src[i];
    }
    dest[at + |src|] := NUL;
    assert dest[..][at..at + |src|] == src;
    failed := false;
  }

  /** Overwriting one character of a C string by NUL leaves two C strings. */
  lemma CutString(was: seq<char>, now: seq<char>, i: nat, s: string, k: nat)
    requires StringAt(was, i, s) && k < |s| && now == was[i + k := NUL]
    ensures StringAt(now, i, s[..k]) && StringAt(now, i + k + 1, s[k + 1..])
  {
    Characters(was, i, s);
    assert now[i..i + k] == s[..k];
    assert now[i + k + 1..i + |s|] == s[k + 1..];
  }

  /**
   * `get_token`: the string at `str` becomes its part before the delimiter, and the result points to the part beyond
   * it.  At most one character is overwritten, by NUL.
   */
  method GetToken(buf: array<char>, str: nat, delim: char, ghost s: string) returns (next: nat)
    requires StringAt(buf[..], str, s) && delim != NUL
    modifies buf
    ensures StringAt(buf[..], str, Before(s, delim)) && StringAt(buf[..], next, Beyond(s, delim))
    ensures next == str + |Before(s, delim)| + if delim in s then 1 else 0
    ensures next + |Beyond(s, delim)| == str + |s|
    ensures forall j :: 0 <= j < buf.Length && j != str + |Before(s, delim)| ==> buf[j] == old(buf[j])
    ensures delim !in s ==> buf[..] == old(buf[..])
  {
    ghost var was := buf[..];
    var delimPos := StrChr(buf, str, delim, s);
    if delimPos.Some? {
      buf[delimPos.value] := NUL;
      next := delimPos.value + 1;
      CutString(was, buf[..], str, s, FirstIndex(s, delim));
    } else {
      var n := StrLen(buf, str, s);
      next := str + n;
      StringTail(buf[..], str, s, n);
    }
  }
}
