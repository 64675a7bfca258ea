/** The pinned module archive (integration/modulearchive/main.go): the sorted `digest  name`
    manifest that must match before anything is written, the lexical path rules, and the write
    phase over a file system. */
module ModuleArchive {
  import opened Wrappers
  import opened Text
  import opened Sorting
  import opened Octets

  const NEWLINE: Byte := 10
  const SPACE: Byte := 32
  const SLASH: Byte := 47
  const DOT: Bytes := [46]
  const DOTDOT: Bytes := [46, 46]

  /** A zip entry; content is absent when opening or reading it fails, and reread says whether
      the second reading, for the write, succeeds. */
  datatype Entry = Entry(
    name: Bytes, directory: bool, symlink: bool, executable: bool,
    content: Option<Bytes>, reread: bool)

  datatype Failure =
    | InvalidEntry | UnexpectedPrefix | InvalidPath | Unreadable | ChecksumMismatch | NotWritten

  type Hash = Bytes -> Bytes

  function NameKey(e: Entry): Code {
    e.name
  }

  // ---------------------------------------------------------------- lexical paths

  type Names = seq<Bytes>

  /** filepath.Clean, one component at a time, on the components kept so far. */
  function Walk(parts: Names, kept: Names, rooted: bool): Names
    decreases |parts|
  {
    if parts == [] then kept
    else if parts[0] == [] || parts[0] == DOT then Walk(parts[1..], kept, rooted)
    else if parts[0] == DOTDOT then
      if kept != [] && kept[|kept| - 1] != DOTDOT then Walk(parts[1..], kept[..|kept| - 1], rooted)
      else if rooted then Walk(parts[1..], kept, rooted)
      else Walk(parts[1..], kept + [DOTDOT], rooted)
    else Walk(parts[1..], kept + [parts[0]], rooted)
  }

  predicate Rooted(path: Bytes) {
    path != [] && path[0] == SLASH
  }

  function Clean(path: Bytes): Names {
    Walk(Split(path, SLASH), [], Rooted(path))
  }

  predicate Escapes(names: Names) {
    names != [] && names[0] == DOTDOT
  }

  /** filepath.IsLocal, on Unix. */
  predicate IsLocal(path: Bytes) {
    path != [] && !Rooted(path) && !Escapes(Clean(path))
  }

  /** filepath.Join(destination, relative), as components. */
  function Target(destination: Bytes, relative: Bytes): Names {
    Walk(Split(destination, SLASH) + Split(relative, SLASH), [], Rooted(destination))
  }

  lemma {:induction false} WalkConcat(a: Names, b: Names, kept: Names, rooted: bool)
    ensures Walk(a + b, kept, rooted) == Walk(b, Walk(a, kept, rooted), rooted)
    decreases |a|
  {
    if a == [] {
      assert a + b == b;
    } else {
      assert (a + b)[1..] == a[1..] + b;
      if a[0] == [] || a[0] == DOT {
        WalkConcat(a[1..], b, kept, rooted);
      } else if a[0] == DOTDOT {
        if kept != [] && kept[|kept| - 1] != DOTDOT {
          WalkConcat(a[1..], b, kept[..|kept| - 1], rooted);
        } else if rooted {
          WalkConcat(a[1..], b, kept, rooted);
        } else {
          WalkConcat(a[1..], b, kept + [DOTDOT], rooted);
        }
      } else {
        WalkConcat(a[1..], b, kept + [a[0]], rooted);
      }
    }
  }

  /** A walk that has left its starting point never comes back. */
  lemma {:induction false} EscapeIsFinal(parts: Names, kept: Names)
    requires Escapes(kept)
    ensures Escapes(Walk(parts, kept, false))
    decreases |parts|
  {
    if parts != [] {
      if parts[0] == [] || parts[0] == DOT {
        EscapeIsFinal(parts[1..], kept);
      } else if parts[0] == DOTDOT {
        if kept[|kept| - 1] != DOTDOT {
          EscapeIsFinal(parts[1..], kept[..|kept| - 1]);
        } else {
          EscapeIsFinal(parts[1..], kept + [DOTDOT]);
        }
      } else {
        EscapeIsFinal(parts[1..], kept + [parts[0]]);
      }
    }
  }

  predicate Plain(names: Names) {
    forall i | 0 <= i < |names| :: names[i] != DOTDOT
  }

  /** A local walk never touches what was below it, wherever it is started. */
  lemma {:induction false} LocalWalkStacks(parts: Names, base: Names, kept: Names, rooted: bool)
    requires Plain(kept) && !Escapes(Walk(parts, kept, false))
    ensures Walk(parts, base + kept, rooted) == base + Walk(parts, kept, false)
    ensures Plain(Walk(parts, kept, false))
    decreases |parts|
  {
    if parts != [] {
      if parts[0] == [] || parts[0] == DOT {
        LocalWalkStacks(parts[1..], base, kept, rooted);
      } else if parts[0] == DOTDOT {
        if kept == [] {
          assert kept + [DOTDOT] == [DOTDOT];
          EscapeIsFinal(parts[1..], [DOTDOT]);
        } else {
          assert (base + kept)[..|base + kept| - 1] == base + kept[..|kept| - 1];
          LocalWalkStacks(parts[1..], base, kept[..|kept| - 1], rooted);
        }
      } else {
        assert base + kept + [parts[0]] == base + (kept + [parts[0]]);
        LocalWalkStacks(parts[1..], base, kept + [parts[0]], rooted);
      }
    }
  }

  /** A local relative path lands lexically inside any destination, at its own cleaned form. */
  lemma TargetInside(destination: Bytes, relative: Bytes)
    requires IsLocal(relative)
    ensures Target(destination, relative) == Clean(destination) + Clean(relative)
    ensures Plain(Clean(relative))
  {
    WalkConcat(Split(destination, SLASH), Split(relative, SLASH), [], Rooted(destination));
    var base := Clean(destination);
    assert base + [] == base;
    LocalWalkStacks(Split(relative, SLASH), base, [], Rooted(destination));
  }

  /** Different spellings can clean to one path: a `.` or an empty component leaves no trace. */
  lemma SilentComponents(a: Names, b: Names, part: Bytes)
    requires part == DOT || part == []
    ensures Walk(a + [part] + b, [], false) == Walk(a + b, [], false)
  {
    WalkConcat(a + [part], b, [], false);
    WalkConcat(a, [part], [], false);
    WalkConcat(a, b, [], false);
  }

  /** How far below its starting point a relative walk is after each component; it sinks if it is
      ever above it. */
  predicate Sinks(parts: Names, depth: nat)
    decreases |parts|
  {
    parts != [] &&
    if parts[0] == [] || parts[0] == [46] then Sinks(parts[1..], depth)
    else if parts[0] == [46, 46] then depth == 0 || Sinks(parts[1..], depth - 1)
    else Sinks(parts[1..], depth + 1)
  }

  lemma {:induction false} EscapesExactly(parts: Names, kept: Names)
    requires Plain(kept)
    ensures Escapes(Walk(parts, kept, false)) <==> Sinks(parts, |kept|)
    decreases |parts|
  {
    if parts != [] {
      if parts[0] == [] || parts[0] == DOT {
        EscapesExactly(parts[1..], kept);
      } else if parts[0] == DOTDOT {
        if kept == [] {
          assert kept + [DOTDOT] == [DOTDOT];
          EscapeIsFinal(parts[1..], [DOTDOT]);
        } else {
          EscapesExactly(parts[1..], kept[..|kept| - 1]);
        }
      } else {
        EscapesExactly(parts[1..], kept + [parts[0]]);
      }
    }
  }

  /** A name is local exactly if it is not empty, not rooted, and never climbs above where it starts. */
  lemma LocalExact(path: Bytes)
    ensures IsLocal(path) <==> path != [] && path[0] != 47 && !Sinks(Split(path, 47), 0)
  {
    EscapesExactly(Split(path, SLASH), []);
  }

  predicate Ordinary(part: Bytes) {
    part != [] && part != [46] && part != [46, 46]
  }

  /** What cleaning does: ordinary components stay as they are, a `..` takes back the one before it,
      and at a root, where there is none, it leaves no trace. */
  lemma CleanExact(a: Names, part: Bytes, b: Names, rooted: bool)
    requires Ordinary(part)
    ensures Walk(a + [part, DOTDOT] + b, [], rooted) == Walk(a + b, [], rooted)
    ensures Walk([DOTDOT] + b, [], true) == Walk(b, [], true)
    ensures Walk(a + [part], [], rooted) == Walk(a, [], rooted) + [part]
  {
    WalkConcat(a + [part, DOTDOT], b, [], rooted);
    WalkConcat(a, [part, DOTDOT], [], rooted);
    WalkConcat(a, b, [], rooted);
    WalkConcat(a, [part], [], rooted);
    var kept := Walk(a, [], rooted);
    assert (kept + [part])[..|kept + [part]| - 1] == kept;
    assert Walk([part], kept, rooted) == kept + [part];
    assert Walk([DOTDOT], kept + [part], rooted) == kept;
    WalkConcat([part], [DOTDOT], kept, rooted);
    assert [part] + [DOTDOT] == [part, DOTDOT];
    assert ([DOTDOT] + b)[1..] == b;
  }

  // ---------------------------------------------------------------- the manifest

  function HexDigit(n: nat): Byte
    requires n < 16
  {
    if n < 10 then 48 + n else 87 + n
  }

  /** %x of a digest. */
  function Hex(d: Bytes): Bytes {
    if d == [] then [] else [HexDigit(d[0] / 16), HexDigit(d[0] % 16)] + Hex(d[1..])
  }

  /** Two lower-case digits a byte, the high one first. */
  lemma {:induction false} HexExact(d: Bytes, i: nat)
    requires i < |d|
    ensures |Hex(d)| == 2 * |d|
    ensures Hex(d)[2 * i] == Ascii("0123456789abcdef")[d[i] / 16]
    ensures Hex(d)[2 * i + 1] == Ascii("0123456789abcdef")[d[i] % 16]
  {
    HexSize(d);
    if i == 0 {
      HexDigitExact(d[0] / 16);
      HexDigitExact(d[0] % 16);
    } else {
      HexExact(d[1..], i - 1);
      HexSize(d[1..]);
      assert Hex(d)[2..] == Hex(d[1..]);
      assert Hex(d)[2 * i] == Hex(d)[2..][2 * (i - 1)] && Hex(d)[2 * i + 1] == Hex(d)[2..][2 * (i - 1) + 1];
    }
  }

  lemma HexDigitExact(n: nat)
    requires n < 16
    ensures HexDigit(n) == Ascii("0123456789abcdef")[n]
  {
  }

  lemma {:induction false} HexInjective(a: Bytes, b: Bytes)
    requires Hex(a) == Hex(b)
    ensures a == b
  {
    HexSize(a);
    HexSize(b);
    if a != [] {
      assert Hex(a)[2..] == Hex(a[1..]) && Hex(b)[2..] == Hex(b[1..]);
      assert Hex(a)[0] == Hex(b)[0] && Hex(a)[1] == Hex(b)[1];
      HexInjective(a[1..], b[1..]);
      assert a == [a[0]] + a[1..] && b == [b[0]] + b[1..];
    }
  }

  lemma {:induction false} HexSize(d: Bytes)
    ensures |Hex(d)| == 2 * |d|
    ensures NEWLINE !in Hex(d)
  {
    if d != [] {
      HexSize(d[1..]);
    }
  }

  function Line(h: Hash, e: Entry): Bytes
    requires e.content.Some?
  {
    Hex(h(e.content.value)) + [SPACE, SPACE] + e.name + [NEWLINE]
  }

  predicate Readable(files: seq<Entry>) {
    forall i | 0 <= i < |files| :: files[i].content.Some?
  }

  function Manifest(h: Hash, files: seq<Entry>): Bytes
    requires Readable(files)
  {
    if files == [] then [] else Line(h, files[0]) + Manifest(h, files[1..])
  }

  lemma {:induction false} ManifestAppend(h: Hash, files: seq<Entry>, e: Entry)
    requires Readable(files) && e.content.Some?
    ensures Readable(files + [e]) && Manifest(h, files + [e]) == Manifest(h, files) + Line(h, e)
  {
    if files == [] {
      assert files + [e] == [e] && [e][1..] == [];
    } else {
      var more := files + [e];
      assert more[1..] == files[1..] + [e] && more[0] == files[0];
      ManifestAppend(h, files[1..], e);
      var first, rest, last := Line(h, files[0]), Manifest(h, files[1..]), Line(h, e);
      assert first + (rest + last) == (first + rest) + last;
    }
  }

  function Lines(h: Hash, files: seq<Entry>): seq<Bytes>
    requires Readable(files)
  {
    if files == [] then [[]] else [Hex(h(files[0].content.value)) + Ascii("  ") + files[0].name] + Lines(h, files[1..])
  }

  /** Split at its newlines, the manifest is a line for each file, in order, of the digest, two spaces
      and the name; each is closed by a newline. */
  lemma {:induction false} ManifestLines(h: Hash, files: seq<Entry>)
    requires Readable(files) && NewlineFree(files)
    ensures Split(Manifest(h, files), Ascii("\n")[0]) == Lines(h, files)
  {
    if files != [] {
      ManifestLines(h, files[1..]);
      var line := Hex(h(files[0].content.value)) + Ascii("  ") + files[0].name;
      var rest := Manifest(h, files[1..]);
      HexSize(h(files[0].content.value));
      assert Ascii("  ") == [SPACE, SPACE] && Ascii("\n")[0] == NEWLINE;
      assert Manifest(h, files) == line + [NEWLINE] + rest;
      HeadOfConcat(line, NEWLINE, rest);
      assert Manifest(h, files)[|line| + 1..] == rest;
    }
  }

  predicate NewlineFree(files: seq<Entry>) {
    forall i | 0 <= i < |files| :: NEWLINE !in files[i].name
  }

  predicate SameLine(h: Hash, a: Entry, b: Entry)
    requires a.content.Some? && b.content.Some?
  {
    a.name == b.name && h(a.content.value) == h(b.content.value)
  }

  /** The manifest is uniquely decodable: names without newlines and digests of one length. */
  lemma {:induction false} ManifestDetermines(h: Hash, size: nat, a: seq<Entry>, b: seq<Entry>)
    requires forall x :: |h(x)| == size
    requires Readable(a) && Readable(b) && NewlineFree(a) && NewlineFree(b)
    requires Manifest(h, a) == Manifest(h, b)
    ensures |a| == |b| && forall i | 0 <= i < |a| :: SameLine(h, a[i], b[i])
  {
    if a != [] && b != [] {
      LineSplits(h, size, a[0], Manifest(h, a[1..]), b[0], Manifest(h, b[1..]));
      ManifestDetermines(h, size, a[1..], b[1..]);
      forall i | 0 <= i < |a|
        ensures SameLine(h, a[i], b[i])
      {
        if i > 0 {
          assert SameLine(h, a[1..][i - 1], b[1..][i - 1]);
        }
      }
    }
  }

  lemma LineSplits(h: Hash, size: nat, a: Entry, r: Bytes, b: Entry, s: Bytes)
    requires forall x :: |h(x)| == size
    requires a.content.Some? && b.content.Some? && NEWLINE !in a.name && NEWLINE !in b.name
    requires Line(h, a) + r == Line(h, b) + s
    ensures SameLine(h, a, b) && r == s
  {
    var x, y := Hex(h(a.content.value)), Hex(h(b.content.value));
    HexSize(h(a.content.value));
    HexSize(h(b.content.value));
    var z := Line(h, a) + r;
    var p, q := x + [SPACE, SPACE] + a.name, y + [SPACE, SPACE] + b.name;
    assert z == p + [NEWLINE] + r && z == q + [NEWLINE] + s;
    HeadOfConcat(p, NEWLINE, r);
    HeadOfConcat(q, NEWLINE, s);
    assert p == q;
    assert r == z[|p| + 1..] && s == z[|q| + 1..];
    assert x == p[..|x|] && y == q[..|y|];
    assert a.name == p[|x| + 2..] && b.name == q[|y| + 2..];
    HexInjective(h(a.content.value), h(b.content.value));
  }

  // ---------------------------------------------------------------- admission

  function Relative(prefix: Bytes, name: Bytes): Bytes
    requires prefix + [SLASH] <= name
  {
    name[|prefix| + 1..]
  }

  predicate AdmissibleEntry(prefix: Bytes, e: Entry) {
    && NEWLINE !in e.name && prefix + [SLASH] <= e.name && IsLocal(Relative(prefix, e.name))
    && !e.symlink && e.content.Some?
  }

  predicate DistinctNames(files: seq<Entry>) {
    forall i, j | 0 <= i < j < |files| :: files[i].name != files[j].name
  }

  predicate Admissible(prefix: Bytes, files: seq<Entry>) {
    DistinctNames(files) && forall i | 0 <= i < |files| :: AdmissibleEntry(prefix, files[i])
  }

  /** What lines 26-56 accept of the sorted files: seal turns the manifest into its h1 checksum. */
  predicate Verified(h: Hash, seal: Hash, prefix: Bytes, expected: Bytes, files: seq<Entry>) {
    Admissible(prefix, files) && seal(Manifest(h, files)) == expected
  }

  lemma StrictNext(seen: seq<Entry>, e: Entry)
    requires StrictlySorted(NameKey, seen)
    requires seen != [] ==> AtMost(NameKey(seen[|seen| - 1]), NameKey(e)) && seen[|seen| - 1].name != e.name
    ensures StrictlySorted(NameKey, seen + [e])
  {
    forall j | 0 <= j < |seen|
      ensures Less(NameKey(seen[j]), NameKey(e))
    {
      var a, b, c := NameKey(seen[j]), NameKey(seen[|seen| - 1]), NameKey(e);
      LessIsStrictOrder(b, c, b);
      if j < |seen| - 1 {
        LessIsStrictOrder(a, b, c);
      }
    }
  }

  lemma StrictDistinct(files: seq<Entry>)
    requires StrictlySorted(NameKey, files)
    ensures DistinctNames(files)
  {
    forall i, j | 0 <= i < j < |files|
      ensures files[i].name != files[j].name
    {
      LessIsStrictOrder(NameKey(files[i]), NameKey(files[i]), NameKey(files[i]));
    }
  }

  /** Lines 27-50 for one file, after its predecessor. */
  method CheckEntry(prefix: Bytes, file: Entry, previous: Bytes) returns (err: Option<Failure>)
    ensures err.None? <==> file.name != previous && AdmissibleEntry(prefix, file)
    ensures err.None? <==>
              && file.name != previous && 10 !in file.name && prefix + [47] <= file.name
              && IsLocal(file.name[|prefix| + 1..]) && !file.symlink && file.content.Some?
    ensures err == Some(InvalidEntry) <==> file.name == previous || NEWLINE in file.name
    ensures err == Some(UnexpectedPrefix) ==> !(prefix + [SLASH] <= file.name)
    ensures err == Some(InvalidPath) ==>
              prefix + [SLASH] <= file.name && (file.symlink || !IsLocal(Relative(prefix, file.name)))
    ensures err == Some(Unreadable) ==> file.content.None?
    ensures err.Some? ==> err.value in {InvalidEntry, UnexpectedPrefix, InvalidPath, Unreadable}
  {
    if file.name == previous || NEWLINE in file.name {
      return Some(InvalidEntry);
    }
    if !(prefix + [SLASH] <= file.name) {
      return Some(UnexpectedPrefix);
    }
    if !IsLocal(Relative(prefix, file.name)) || file.symlink {
      return Some(InvalidPath);
    }
    if file.content.None? {
      return Some(Unreadable);
    }
    return None;
  }

  /** The files seen so far pass every rule, in strict order, and total holds their lines. */
  predicate CheckedSoFar(h: Hash, prefix: Bytes, seen: seq<Entry>, total: Bytes, previous: Bytes) {
    && StrictlySorted(NameKey, seen) && (forall j | 0 <= j < |seen| :: AdmissibleEntry(prefix, seen[j]))
    && Readable(seen) && total == Manifest(h, seen)
    && previous == if seen == [] then [] else seen[|seen| - 1].name
  }

  lemma ChecksOneMore(h: Hash, prefix: Bytes, seen: seq<Entry>, e: Entry, total: Bytes, previous: Bytes)
    requires CheckedSoFar(h, prefix, seen, total, previous)
    requires seen != [] ==> AtMost(NameKey(seen[|seen| - 1]), NameKey(e))
    requires e.name != previous && AdmissibleEntry(prefix, e)
    ensures CheckedSoFar(h, prefix, seen + [e], total + Line(h, e), e.name)
  {
    StrictNext(seen, e);
    ManifestAppend(h, seen, e);
  }

  lemma SortedNeighbours(files: seq<Entry>, i: nat)
    requires Sorted(NameKey, files) && i < |files|
    ensures files[..i + 1] == files[..i] + [files[i]]
    ensures i > 0 ==> AtMost(NameKey(files[..i][i - 1]), NameKey(files[i]))
  {
  }

  lemma RepeatRejected(h: Hash, prefix: Bytes, files: seq<Entry>, i: nat, total: Bytes, previous: Bytes)
    requires i < |files| && CheckedSoFar(h, prefix, files[..i], total, previous)
    requires files[i].name == previous || !AdmissibleEntry(prefix, files[i])
    ensures !Admissible(prefix, files)
  {
    if i == 0 {
      assert files[i].name == [] ==> !AdmissibleEntry(prefix, files[i]);
    } else {
      assert files[..i][i - 1] == files[i - 1];
    }
  }

  /** Lines 24-52, for each file in turn: the running manifest, or the first rule broken. */
  method CheckFiles(h: Hash, prefix: Bytes, files: seq<Entry>)
    returns (err: Option<Failure>, total: Bytes, ghost previous: Bytes)
    requires Sorted(NameKey, files)
    ensures err.None? ==> CheckedSoFar(h, prefix, files, total, previous)
    ensures err.Some? ==> !Admissible(prefix, files) && err.value in {InvalidEntry, UnexpectedPrefix, InvalidPath, Unreadable}
  {
    total := [];
    var last: Bytes := [];
    for i := 0 to |files|
      invariant CheckedSoFar(h, prefix, files[..i], total, last)
    {
      var file := files[i];
      err := CheckEntry(prefix, file, last);
      if err.Some? {
        RepeatRejected(h, prefix, files, i, total, last);
        return err, total, last;
      }
      SortedNeighbours(files, i);
      ChecksOneMore(h, prefix, files[..i], file, total, last);
      last := file.name;
      total := total + Line(h, file);
    }
    assert files[..|files|] == files;
    return None, total, last;
  }

  /** Lines 53-56. */
  method CheckSeal(h: Hash, seal: Hash, prefix: Bytes, expected: Bytes, ghost files: seq<Entry>, total: Bytes, ghost previous: Bytes)
    returns (err: Option<Failure>)
    requires CheckedSoFar(h, prefix, files, total, previous)
    ensures err.None? <==> Verified(h, seal, prefix, expected, files)
    ensures Admissible(prefix, files) && (err.None? || err == Some(ChecksumMismatch))
  {
    StrictDistinct(files);
    if seal(total) != expected {
      return Some(ChecksumMismatch);
    }
    return None;
  }

  /** Lines 24-56 on the sorted files: the comparison of neighbours finds every duplicate, and
      every rule is checked for every file before the checksum is. */
  method Check(h: Hash, seal: Hash, prefix: Bytes, expected: Bytes, files: seq<Entry>) returns (err: Option<Failure>)
    requires Sorted(NameKey, files)
    ensures err.None? <==> Verified(h, seal, prefix, expected, files)
    ensures err == Some(ChecksumMismatch) <==> Admissible(prefix, files) && seal(Manifest(h, files)) != expected
  {
    var total;
    ghost var previous;
    err, total, previous := CheckFiles(h, prefix, files);
    if err.None? {
      err := CheckSeal(h, seal, prefix, expected, files, total, previous);
    }
  }

  /** The manifest goes through the files in ascending order of their names, byte by byte. */
  lemma SortedByName(archive: seq<Entry>)
    ensures var sorted := SortBy(NameKey, archive);
            && multiset(sorted) == multiset(archive)
            && forall i, j | 0 <= i < j < |sorted| :: !Less(sorted[j].name, sorted[i].name)
  {
    var sorted := SortBy(NameKey, archive);
    forall i, j | 0 <= i < j < |sorted|
      ensures !Less(sorted[j].name, sorted[i].name)
    {
      assert AtMost(NameKey(sorted[i]), NameKey(sorted[j]));
    }
  }

  lemma DistinctDetermines(files: seq<Entry>)
    requires DistinctNames(files)
    ensures KeyDetermines(NameKey, files)
  {
  }

  /** Acceptance does not depend on the order of the zip's entries, nor on what an unstable sort
      does with equal names: any two sorted arrangements of them get the same verdict. */
  lemma AcceptanceIgnoresOrder(h: Hash, seal: Hash, prefix: Bytes, expected: Bytes, a: seq<Entry>, b: seq<Entry>)
    requires multiset(a) == multiset(b) && Sorted(NameKey, a) && Sorted(NameKey, b)
    ensures Verified(h, seal, prefix, expected, a) <==> Verified(h, seal, prefix, expected, b)
  {
    if DistinctNames(a) {
      DistinctDetermines(a);
      SortedUnique(NameKey, a, b);
    } else if DistinctNames(b) {
      DistinctDetermines(b);
      SortedUnique(NameKey, b, a);
    }
  }

  predicate CollisionFree(h: Hash, a: seq<Entry>, b: seq<Entry>)
    requires Readable(a) && Readable(b)
  {
    forall i, j | 0 <= i < |a| && 0 <= j < |b| ::
      h(a[i].content.value) == h(b[j].content.value) ==> a[i].content.value == b[j].content.value
  }

  /** A checksum pins names and contents, as far as neither hash collides on what it is fed. */
  lemma ChecksumPinsContents(h: Hash, seal: Hash, size: nat, prefix: Bytes, expected: Bytes, a: seq<Entry>, b: seq<Entry>)
    requires forall x :: |h(x)| == size
    requires Readable(a) && Readable(b) && CollisionFree(h, a, b)
    requires seal(Manifest(h, a)) == seal(Manifest(h, b)) ==> Manifest(h, a) == Manifest(h, b)
    requires Verified(h, seal, prefix, expected, a) && Verified(h, seal, prefix, expected, b)
    ensures |a| == |b| && forall i | 0 <= i < |a| :: a[i].name == b[i].name && a[i].content == b[i].content
  {
    AdmissibleNewlineFree(prefix, a);
    AdmissibleNewlineFree(prefix, b);
    ManifestDetermines(h, size, a, b);
    forall i | 0 <= i < |a|
      ensures a[i].name == b[i].name && a[i].content == b[i].content
    {
      assert SameLine(h, a[i], b[i]);
    }
  }

  lemma AdmissibleNewlineFree(prefix: Bytes, files: seq<Entry>)
    requires Admissible(prefix, files)
    ensures NewlineFree(files)
  {
  }

  // ---------------------------------------------------------------- the write phase

  datatype Item = Dir | Regular(content: Bytes, executable: bool)

  type Items = map<Names, Item>

  predicate Kept(before: Items, after: Items) {
    forall p | p in before :: p in after && after[p] == before[p]
  }

  /** Whatever is new lies under base, or is one of base's own parent directories. */
  predicate AddsInside(base: Names, before: Items, after: Items) {
    forall p | p in after && p !in before :: base <= p || (p <= base && after[p] == Dir)
  }

  function TargetOf(destination: Bytes, prefix: Bytes, e: Entry): Names
    requires AdmissibleEntry(prefix, e)
  {
    Target(destination, Relative(prefix, e.name))
  }

  /** A file entry is a new regular file at its target with its content and mode; a directory
      entry is a directory there. */
  predicate Landed(destination: Bytes, prefix: Bytes, before: Items, after: Items, e: Entry)
    requires AdmissibleEntry(prefix, e)
  {
    var t := TargetOf(destination, prefix, e);
    if e.directory then t == [] || (t in after && after[t] == Dir)
    else t !in before && t in after && after[t] == Regular(e.content.value, e.executable)
  }

  predicate AllLanded(destination: Bytes, prefix: Bytes, before: Items, after: Items, files: seq<Entry>)
    requires forall i | 0 <= i < |files| :: AdmissibleEntry(prefix, files[i])
  {
    forall i | 0 <= i < |files| :: Landed(destination, prefix, before, after, files[i])
  }

  predicate SeparateTargets(destination: Bytes, prefix: Bytes, files: seq<Entry>)
    requires forall i | 0 <= i < |files| :: AdmissibleEntry(prefix, files[i])
  {
    forall i, j | 0 <= i < j < |files| && !files[i].directory && !files[j].directory ::
      TargetOf(destination, prefix, files[i]) != TargetOf(destination, prefix, files[j])
  }

  /** One more entry lands without disturbing those that have, at a target of its own. */
  lemma OneMoreLands(destination: Bytes, prefix: Bytes, start: Items, before: Items, after: Items, files: seq<Entry>, e: Entry)
    requires forall i | 0 <= i < |files| :: AdmissibleEntry(prefix, files[i])
    requires AdmissibleEntry(prefix, e)
    requires AllLanded(destination, prefix, start, before, files) && SeparateTargets(destination, prefix, files)
    requires Kept(start, before) && Kept(before, after) && Landed(destination, prefix, before, after, e)
    ensures AllLanded(destination, prefix, start, after, files + [e])
    ensures SeparateTargets(destination, prefix, files + [e])
  {
  }

  /** No component on the way is a file. */
  predicate Passable(items: Items, path: Names) {
    forall j | 1 <= j <= |path| :: path[..j] in items ==> items[path[..j]] == Dir
  }

  /** One entry can be written: a directory whose way is free; a file whose parents' way is free, whose
      own place is not taken, and whose content can be read again. */
  predicate Writable(destination: Bytes, prefix: Bytes, items: Items, e: Entry)
    requires AdmissibleEntry(prefix, e)
  {
    var t := TargetOf(destination, prefix, e);
    if e.directory then Passable(items, t)
    else t != [] && Passable(items, t[..|t| - 1]) && t !in items && e.reread
  }

  /** New are at most directories on the way to an entry's target, and the target itself. */
  predicate AddsOnlyOnWay(destination: Bytes, prefix: Bytes, before: Items, after: Items, e: Entry)
    requires AdmissibleEntry(prefix, e)
  {
    var t := TargetOf(destination, prefix, e);
    forall p | p in after && p !in before :: p <= t && (after[p] == Dir || (p == t && !e.directory))
  }

  /** No file of the archive lies on the way to, or in the place of, another entry. */
  predicate Compatible(destination: Bytes, prefix: Bytes, files: seq<Entry>)
    requires forall i | 0 <= i < |files| :: AdmissibleEntry(prefix, files[i])
  {
    forall i, j | 0 <= i < |files| && 0 <= j < |files| && i != j && !files[i].directory ::
      !(TargetOf(destination, prefix, files[i]) <= TargetOf(destination, prefix, files[j]))
  }

  predicate AllWritable(destination: Bytes, prefix: Bytes, items: Items, files: seq<Entry>)
    requires forall i | 0 <= i < |files| :: AdmissibleEntry(prefix, files[i])
  {
    forall i | 0 <= i < |files| :: Writable(destination, prefix, items, files[i])
  }

  /** Writing one entry takes no other's place. */
  lemma StaysWritable(destination: Bytes, prefix: Bytes, before: Items, after: Items, d: Entry, e: Entry)
    requires AdmissibleEntry(prefix, d) && AdmissibleEntry(prefix, e)
    requires Kept(before, after) && AddsOnlyOnWay(destination, prefix, before, after, d)
    requires Writable(destination, prefix, before, e)
    requires !d.directory ==> !(TargetOf(destination, prefix, d) <= TargetOf(destination, prefix, e))
    requires !e.directory ==> !(TargetOf(destination, prefix, e) <= TargetOf(destination, prefix, d))
    ensures Writable(destination, prefix, after, e)
  {
    var t := TargetOf(destination, prefix, e);
    forall j | 1 <= j <= |t| && t[..j] in after && t[..j] !in before
      ensures after[t[..j]] == Dir
    {
    }
    if !e.directory {
      var way := t[..|t| - 1];
      forall j | 1 <= j <= |way| && way[..j] in after
        ensures after[way[..j]] == Dir
      {
        assert way[..j] == t[..j];
      }
    }
  }

  /** The first i entries have landed, and nothing else has happened. */
  predicate WrittenSoFar(destination: Bytes, prefix: Bytes, start: Items, now: Items, files: seq<Entry>, i: nat)
    requires i <= |files| && forall k | 0 <= k < |files| :: AdmissibleEntry(prefix, files[k])
  {
    && Kept(start, now) && AddsInside(Clean(destination), start, now)
    && AllLanded(destination, prefix, start, now, files[..i]) && SeparateTargets(destination, prefix, files[..i])
  }

  lemma WrittenOneMore(destination: Bytes, prefix: Bytes, start: Items, before: Items, after: Items, files: seq<Entry>, i: nat)
    requires i < |files| && forall k | 0 <= k < |files| :: AdmissibleEntry(prefix, files[k])
    requires WrittenSoFar(destination, prefix, start, before, files, i)
    requires Kept(before, after) && AddsInside(Clean(destination), before, after)
    requires Landed(destination, prefix, before, after, files[i])
    ensures WrittenSoFar(destination, prefix, start, after, files, i + 1)
  {
    OneMoreLands(destination, prefix, start, before, after, files[..i], files[i]);
    assert files[..i + 1] == files[..i] + [files[i]];
  }

  lemma RestStaysWritable(destination: Bytes, prefix: Bytes, before: Items, after: Items, files: seq<Entry>, i: nat)
    requires i < |files| && forall k | 0 <= k < |files| :: AdmissibleEntry(prefix, files[k])
    requires Compatible(destination, prefix, files) && AllWritable(destination, prefix, before, files[i..])
    requires Kept(before, after) && AddsOnlyOnWay(destination, prefix, before, after, files[i])
    ensures AllWritable(destination, prefix, after, files[i + 1..])
  {
    forall j | i < j < |files|
      ensures Writable(destination, prefix, after, files[j])
    {
      assert files[i..][j - i] == files[j];
      StaysWritable(destination, prefix, before, after, files[i], files[j]);
    }
  }

  class Disk {
    var items: Items

    constructor (items: Items)
      ensures this.items == items
    {
      this.items := items;
    }

    /** os.MkdirAll: fails on a component that is a file, and may then have made its parents. */
    method MkdirAll(path: Names) returns (ok: bool)
      modifies this
      ensures Kept(old(items), items)
      ensures forall p | p in items && p !in old(items) :: p <= path && items[p] == Dir
      ensures ok ==> path == [] || (path in items && items[path] == Dir)
      ensures ok <==> Passable(old(items), path)
    {
      for k := 1 to |path| + 1
        invariant Kept(old(items), items)
        invariant forall p | p in items && p !in old(items) :: p <= path && items[p] == Dir
        invariant k > 1 ==> path[..k - 1] in items && items[path[..k - 1]] == Dir
        invariant forall j | 1 <= j < k :: path[..j] in old(items) ==> old(items)[path[..j]] == Dir
        invariant forall p | p in items && p !in old(items) :: |p| < k
      {
        var p := path[..k];
        if p in items {
          if items[p] != Dir {
            return false;
          }
        } else {
          items := items[p := Dir];
        }
      }
      assert path[..|path|] == path;
      return true;
    }

    /** Lines 59-93 for one file. */
    method WriteEntry(destination: Bytes, prefix: Bytes, e: Entry) returns (ok: bool)
      requires AdmissibleEntry(prefix, e)
      modifies this
      ensures Kept(old(items), items) && AddsInside(Clean(destination), old(items), items)
      ensures ok ==> Landed(destination, prefix, old(items), items, e)
      ensures ok <==> Writable(destination, prefix, old(items), e)
      ensures var t := Clean(destination) + Clean(e.name[|prefix| + 1..]);
              ok && !e.directory ==> t !in old(items) && t in items && items[t] == Regular(e.content.value, e.executable)
      ensures AddsOnlyOnWay(destination, prefix, old(items), items, e)
    {
      var target := Target(destination, Relative(prefix, e.name));
      ghost var base := Clean(destination);
      TargetInside(destination, Relative(prefix, e.name));
      if e.directory {
        ok := MkdirAll(target);
        return ok;
      }
      if target == [] {
        return false;
      }
      ok := MkdirAll(target[..|target| - 1]);
      if !ok {
        return false;
      }
      if target in items {
        return false;
      }
      if !e.reread {
        var cut: nat :| cut <= |e.content.value|;
        items := items[target := Regular(e.content.value[..cut], e.executable)];
        return false;
      }
      items := items[target := Regular(e.content.value, e.executable)];
      return true;
    }

    /** extract: nothing is written unless the whole manifest matches; whatever happens, no
        existing file is touched and nothing is made outside the destination; on success every
        file entry is a new file of its own with its content; and it succeeds where the manifest
        matches and no entry is in the way of another or of what is there. */
    method Extract(archive: seq<Entry>, h: Hash, seal: Hash, prefix: Bytes, expected: Bytes, destination: Bytes)
      returns (err: Option<Failure>)
      modifies this
      ensures !Verified(h, seal, prefix, expected, SortBy(NameKey, archive)) ==> err.Some? && items == old(items)
      ensures Kept(old(items), items) && AddsInside(Clean(destination), old(items), items)
      ensures (&& Verified(h, seal, prefix, expected, SortBy(NameKey, archive))
               && Compatible(destination, prefix, SortBy(NameKey, archive))
               && AllWritable(destination, prefix, old(items), SortBy(NameKey, archive))) ==> err.None?
      ensures err.None? ==>
                && Verified(h, seal, prefix, expected, SortBy(NameKey, archive))
                && AllLanded(destination, prefix, old(items), items, SortBy(NameKey, archive))
                && SeparateTargets(destination, prefix, SortBy(NameKey, archive))
    {
      var sorted := SortBy(NameKey, archive);
      err := Check(h, seal, prefix, expected, sorted);
      if err.Some? {
        return err;
      }
      var ok := WriteAll(sorted, prefix, destination);
      return if ok then None else Some(NotWritten);
    }

    /** Lines 58-94. */
    method WriteAll(sorted: seq<Entry>, prefix: Bytes, destination: Bytes) returns (ok: bool)
      requires forall i | 0 <= i < |sorted| :: AdmissibleEntry(prefix, sorted[i])
      modifies this
      ensures Kept(old(items), items) && AddsInside(Clean(destination), old(items), items)
      ensures ok ==> AllLanded(destination, prefix, old(items), items, sorted) && SeparateTargets(destination, prefix, sorted)
      ensures Compatible(destination, prefix, sorted) && AllWritable(destination, prefix, old(items), sorted) ==> ok
    {
      ghost var fits := Compatible(destination, prefix, sorted) && AllWritable(destination, prefix, old(items), sorted);
      for i := 0 to |sorted|
        invariant WrittenSoFar(destination, prefix, old(items), items, sorted, i)
        invariant fits ==> AllWritable(destination, prefix, items, sorted[i..])
      {
        ghost var before := items;
        assert sorted[i..][0] == sorted[i];
        ok := WriteEntry(destination, prefix, sorted[i]);
        if !ok {
          assert !fits;
          return false;
        }
        if fits {
          RestStaysWritable(destination, prefix, before, items, sorted, i);
        }
        WrittenOneMore(destination, prefix, old(items), before, items, sorted, i);
      }
      assert sorted[..|sorted|] == sorted;
      return true;
    }
  }
}
