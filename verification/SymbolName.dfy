/** The name of the create function, built from a file name in a fixed buffer. */
module SymbolName {
  import opened Basics
  import opened CStrings

  const PATH_MAX_LENGTH: nat := 4096
  const PREFIX := "qrvmc_create_"

  /** The part after the last '/'. */
  function BaseName(filename: string): (r: string)
    ensures |r| <= |filename| && (NUL !in filename ==> NUL !in r)
  {
    if '/' in filename then BaseName(Beyond(filename, '/')) else filename
  }

  /** `r` is the end of `s` that has no separator and, unless it is all, follows one. */
  predicate IsLastPart(s: string, r: string) {
    && |r| <= |s| && s[|s| - |r|..] == r
    && '/' !in r
    && (|r| < |s| ==> s[|s| - |r| - 1] == '/')
  }

  lemma LastPartOfTail(s: string, tail: string, r: string)
    requires |tail| < |s| && s[|s| - |tail|..] == tail && s[|s| - |tail| - 1] == '/' && IsLastPart(tail, r)
    ensures IsLastPart(s, r)
  {
    var d, k := |s| - |tail|, |tail| - |r|;
    forall i | 0 <= i < |tail|
      ensures s[d + i] == tail[i]
    {
      assert s[d..][i] == s[d + i];
    }
    assert forall i :: 0 <= i < |r| ==> s[d + k + i] == r[i];
    assert s[d + k..] == r;
  }

  lemma {:induction false} BaseNameIsLastPart(filename: string)
    ensures IsLastPart(filename, BaseName(filename))
  {
    if '/' !in filename {
    } else {
      BaseNameIsLastPart(Beyond(filename, '/'));
      LastPartOfTail(filename, Beyond(filename, '/'), BaseName(filename));
    }
  }

  function StripLib(name: string): string {
    if "lib" <= name then name[3..] else name
  }

  /** Every '-' replaced by '_'. */
  function Underscored(s: string): (r: string)
    ensures |r| == |s| && forall i :: 0 <= i < |s| ==> r[i] == if s[i] == '-' then '_' else s[i]
  {
    seq(|s|, i requires 0 <= i < |s| => if s[i] == '-' then '_' else s[i])
  }

  /** The part of the file name that names the VM, extensions and all. */
  function Stem(filename: string): string {
    StripLib(BaseName(filename))
  }

  /** The rule of the documentation. */
  function DocumentedName(filename: string): string {
    PREFIX + Underscored(Before(Stem(filename), '.'))
  }

  /** What the code derives: a part too long for its half of the buffer is dropped altogether. */
  function DerivedName(filename: string): string {
    if |Stem(filename)| < PATH_MAX_LENGTH then DocumentedName(filename) else PREFIX
  }

  /** The code follows the documentation exactly when the part fits, or starts with its extension. */
  lemma DerivedNameIsDocumented(filename: string)
    ensures DerivedName(filename) == DocumentedName(filename)
            <==> |Stem(filename)| < PATH_MAX_LENGTH || Stem(filename)[0] == '.'
  {
    if |Stem(filename)| >= PATH_MAX_LENGTH {
      assert Before(Stem(filename), '.') == "" <==> Stem(filename)[0] == '.';
    }
  }

  /** Among file names the loader accepts, only a 4096-character one without '/' and "lib" can be too long. */
  lemma TooLongStem(filename: string)
    requires |filename| <= 4096
    ensures |Stem(filename)| >= PATH_MAX_LENGTH
            <==> |filename| == 4096 && '/' !in filename && !("lib" <= filename)
  {
    if '/' in filename {
      assert |BaseName(filename)| < |filename|;
    }
  }

  /** A file name the loader accepts whose symbol is not the documented one: 4096 times the letter a. */
  lemma LongestNameIsDropped()
    ensures var filename := seq(4096, _ => 'a');
            && 0 < |filename| <= PATH_MAX_LENGTH && NUL !in filename
            && DerivedName(filename) == "qrvmc_create_"
            && DerivedName(filename) != DocumentedName(filename)
  {
    var filename := seq(4096, _ => 'a');
    assert '/' !in filename && filename[0] == 'a';
    TooLongStem(filename);
    assert Stem(filename) == filename;
    DerivedNameIsDocumented(filename);
  }

  /** The base name is what follows a '/' with none behind it. */
  lemma {:induction false} BaseNameAfterSlash(dir: string, base: string)
    requires '/' !in base
    ensures BaseName(dir + "/" + base) == base
    decreases |dir|
  {
    var filename := dir + "/" + base;
    assert filename[|dir|] == '/';
    if '/' !in dir {
      FirstIndexUnique(dir, '/', base);
      assert Beyond(filename, '/') == base;
    } else {
      var head, tail := Before(dir, '/'), Beyond(dir, '/');
      assert filename == head + "/" + (tail + "/" + base);
      FirstIndexUnique(head, '/', tail + "/" + base);
      assert Beyond(filename, '/') == tail + "/" + base;
      BaseNameAfterSlash(tail, base);
    }
  }

  lemma FirstPart(name: string, extensions: string)
    requires '.' !in name
    ensures Before(name + "." + extensions, '.') == name
  {
    FirstIndexUnique(name, '.', extensions);
  }

  lemma LibIsStripped(rest: string)
    ensures StripLib("lib" + rest) == rest
  {
    assert ("lib" + rest)[3..] == rest && ("lib" + rest)[..3] == "lib";
  }

  /** The rule on the usual shape of a library's path: the directory, "lib" and all extensions go. */
  lemma LibraryName(dir: string, name: string, extensions: string)
    requires '/' !in name && '.' !in name && '/' !in extensions
    requires |dir + "/" + ("lib" + (name + "." + extensions))| <= 4096
    ensures DerivedName(dir + "/" + ("lib" + (name + "." + extensions))) == "qrvmc_create_" + Underscored(name)
  {
    var rest := name + "." + extensions;
    BaseNameAfterSlash(dir, "lib" + rest);
    LibIsStripped(rest);
    FirstPart(name, extensions);
  }

  /** A file without directory and "lib" keeps its whole first part. */
  lemma PlainName(name: string, extensions: string)
    requires '/' !in name && '.' !in name && '/' !in extensions && !("lib" <= name + "." + extensions)
    requires |name + "." + extensions| < 4096
    ensures DerivedName(name + "." + extensions) == "qrvmc_create_" + Underscored(name)
  {
    FirstPart(name, extensions);
  }

  /** The buffer with every '-' between `lo` and `hi` replaced. */
  ghost predicate DashesReplaced(was: seq<char>, now: seq<char>, lo: nat, hi: nat) {
    |now| == |was| && forall j :: 0 <= j < |was| ==> now[j] == if lo <= j < hi && was[j] == '-' then '_' else was[j]
  }

  /** What a search that found its first '-' after `d` characters tells about the buffer. */
  lemma NoDashBefore(was: seq<char>, start: nat, s: string, k: nat, d: nat)
    requires StringAt(was, start, s) && k <= |s| && d < |s[k..]| && '-' !in s[k..][..d] && s[k..][d] == '-'
    ensures was[start + k + d] == '-'
    ensures forall j :: start + k <= j < start + k + d ==> was[j] != '-'
  {
    Characters(was, start, s);
    assert was[start + k + d] == s[k + d] == s[k..][d];
    forall j | start + k <= j < start + k + d
      ensures was[j] != '-'
    {
      assert was[j] == s[j - start] == s[k..][..d][j - start - k];
    }
  }

  /** The search for the next '-' sees what is left of `s`. */
  lemma RestAt(was: seq<char>, now: seq<char>, start: nat, s: string, k: nat)
    requires StringAt(was, start, s) && k <= |s| && DashesReplaced(was, now, start, start + k)
    ensures StringAt(now, start + k, s[k..])
  {
    StringTail(was, start, s, k);
    StringAtFrame(was, now, start + k, s[k..]);
  }

  lemma AllReplaced(was: seq<char>, now: seq<char>, start: nat, s: string, k: nat)
    requires StringAt(was, start, s) && k <= |s| && '-' !in s[k..] && DashesReplaced(was, now, start, start + k)
    ensures StringAt(now, start, Underscored(s))
  {
    Characters(was, start, s);
    forall i | 0 <= i < |s|
      ensures now[start + i] == Underscored(s)[i]
    {
      if i >= k {
        assert s[i] == s[k..][i - k];
      }
    }
    assert now[start..start + |s|] == Underscored(s);
  }

  method ReplaceOne(buf: array<char>, at: nat, ghost was: seq<char>, ghost lo: nat, ghost hi: nat)
    requires DashesReplaced(was, buf[..], lo, hi) && lo <= hi <= at < buf.Length
    requires was[at] == '-' && forall j :: hi <= j < at ==> was[j] != '-'
    modifies buf
    ensures DashesReplaced(was, buf[..], lo, at + 1)
  {
    buf[at] := '_';
  }

  /** Replaces the '-' just found; the search for the next one starts behind it. */
  method ReplaceFound(buf: array<char>, dash: nat, ghost was: seq<char>, ghost start: nat, ghost s: string, ghost k: nat)
    returns (pos: nat, ghost k': nat)
    requires StringAt(was, start, s) && k <= |s| && DashesReplaced(was, buf[..], start, start + k)
    requires Found(start + k, s[k..], '-') == Some(dash)
    modifies buf
    ensures k < k' <= |s| && pos == start + k'
    ensures DashesReplaced(was, buf[..], start, pos) && StringAt(buf[..], pos, s[k'..])
  {
    NoDashBefore(was, start, s, k, dash - start - k);
    ReplaceOne(buf, dash, was, start, start + k);
    pos, k' := dash + 1, dash + 1 - start;
    RestAt(was, buf[..], start, s, k');
  }

  /** Replaces every '-' of the C string at `start` by '_', in place. */
  method ReplaceDashes(buf: array<char>, start: nat, ghost s: string)
    requires StringAt(buf[..], start, s)
    modifies buf
    ensures StringAt(buf[..], start, Underscored(s))
    ensures buf[..start] == old(buf[..start])
  {
    ghost var was := buf[..];
    ghost var k := 0;
    var pos := start;
    assert s[0..] == s;
    var dash := StrChr(buf, pos, '-', s);
    while dash.Some?
      invariant pos == start + k && k <= |s|
      invariant DashesReplaced(was, buf[..], start, pos)
      invariant dash == Found(pos, s[k..], '-')
      decreases |s| - k
    {
      pos, k := ReplaceFound(buf, dash.value, was, start, s, k);
      dash := StrChr(buf, pos, '-', s[k..]);
    }
    AllReplaced(was, buf[..], start, s, k);
    assert buf[..start] == was[..start];
  }

  /** Ends the C string at its first `c`. */
  method CutAt(buf: array<char>, start: nat, c: char, ghost s: string)
    requires StringAt(buf[..], start, s) && c != NUL
    modifies buf
    ensures StringAt(buf[..], start, Before(s, c))
  {
    ghost var was := buf[..];
    var p := StrChr(buf, start, c, s);
    if p.Some? {
      buf[p.value] := NUL;
    }
    Characters(was, start, s);
    assert buf[..][start..start + |Before(s, c)|] == Before(s, c);
  }

  lemma Prefixed(buf: seq<char>, prefix: string, s: string)
    requires |prefix| <= |buf| && buf[..|prefix|] == prefix && NUL !in prefix && StringAt(buf, |prefix|, s)
    ensures StringAt(buf, 0, prefix + s)
  {
    assert buf[0..|prefix| + |s|] == prefix + s;
  }

  lemma TailAfter(buf: seq<char>, prefix: string, s: string)
    requires StringAt(buf, 0, prefix + s)
    ensures buf[..|prefix|] == prefix && StringAt(buf, |prefix|, s)
  {
    StringTail(buf, 0, prefix + s, |prefix|);
    assert (prefix + s)[|prefix|..] == s;
    assert buf[..|prefix|] == buf[0..|prefix + s|][..|prefix|];
  }

  lemma DotOfName(prefix: string, name: string)
    requires '.' !in prefix
    ensures Before(prefix + name, '.') == prefix + Before(name, '.')
  {
    var i := FirstIndex(name, '.');
    if i < |name| {
      assert prefix + name == (prefix + name[..i]) + ['.'] + name[i + 1..];
      FirstIndexUnique(prefix + name[..i], '.', name[i + 1..]);
    } else {
      assert name[..i] == name;
      FirstIndexUnique(prefix + name, '.', "");
    }
  }

  /** The prefix, then the trimmed and underscored name if it fits. */
  method BuildName(prefix: string, name: string) returns (buf: array<char>)
    requires NUL !in prefix && '.' !in prefix && NUL !in name
    ensures fresh(buf)
    ensures StringAt(buf[..], 0, prefix + Underscored(Before(if |name| < PATH_MAX_LENGTH then name else "", '.')))
  {
    var n := |prefix|;
    buf := new char[n + 1 + PATH_MAX_LENGTH](_ => NUL);
    var failed := StrCpy(buf, 0, buf.Length, prefix);
    assert buf[..n] == buf[..][0..n];
    failed := StrCpy(buf, n, PATH_MAX_LENGTH, name);
    ghost var kept := if failed then "" else name;
    Prefixed(buf[..], prefix, kept);

    // The name ends where its first extension starts.
    CutAt(buf, 0, '.', prefix + kept);
    ghost var stem := Before(kept, '.');
    DotOfName(prefix, kept);
    TailAfter(buf[..], prefix, stem);

    // Dashes are not allowed in symbols.
    ReplaceDashes(buf, n, stem);
    Prefixed(buf[..], prefix, Underscored(stem));
  }

  /** The buffer handed to the symbol lookup. */
  method DeriveName(filename: string) returns (buf: array<char>)
    requires NUL !in filename && |filename| <= PATH_MAX_LENGTH
    ensures fresh(buf) && StringAt(buf[..], 0, DerivedName(filename))
  {
    // Skip the directory and the "lib" prefix.
    var name := BaseName(filename);
    if "lib" <= name {
      name := name[3..];
    }
    buf := BuildName(PREFIX, name);
    assert Before("", '.') == "" && Underscored("") == "";
  }
}
