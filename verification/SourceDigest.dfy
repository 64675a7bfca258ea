/** The digest of the image's source inputs (integration/source-metadata.py): a file tree laid
    out as one byte stream, sorted by path, every part closed by a NUL and the content preceded
    by its length. */
module SourceDigest {
  import opened Wrappers
  import opened Text
  import opened Sorting
  import opened Octets

  const NUL: Byte := 0

  /** What is found at a selected path: a link is described by its target, never followed. */
  datatype Node = File(executable: bool, content: Bytes) | Symlink(target: Bytes)

  /** One input name: a directory with everything beneath it, a single file, or neither. */
  datatype Entry = Entry(path: Bytes, isFile: bool, isSymlink: bool)
  datatype Input = Directory(entries: seq<Entry>) | Single(path: Bytes) | Missing

  type Tree = Bytes -> Node

  function Length(n: nat): Bytes {
    Ascii(Digits(n))
  }

  function Digits(n: nat): (s: string)
    ensures s == Decimal(n) && forall c | c in s :: c as int < 128
  {
    Decimal(n)
  }

  /** The five parts of a record, lines 30-36. */
  function Parts(path: Bytes, node: Node): seq<Bytes> {
    match node
    case File(x, content) => [Ascii("file"), path, if x then Ascii("1") else Ascii("0"), Length(|content|), content]
    case Symlink(target) => [Ascii("symlink"), path, Ascii("0"), Length(|target|), target]
  }

  /** Each part followed by a NUL. */
  function Framed(parts: seq<Bytes>): Bytes {
    if parts == [] then [] else parts[0] + [NUL] + Framed(parts[1..])
  }

  function Records(paths: seq<Bytes>, tree: Tree): Bytes {
    if paths == [] then [] else Framed(Parts(paths[0], tree(paths[0]))) + Records(paths[1..], tree)
  }

  function PathKey(path: Bytes): Code {
    path
  }

  /** Everything the hash is fed for a set of files found in some order. */
  function Stream(found: seq<Bytes>, tree: Tree): Bytes {
    Ascii("esignet-candidate-source-v1") + [NUL] + Records(SortBy(PathKey, found), tree)
  }

  function Listed(entries: seq<Entry>): seq<Bytes> {
    if entries == [] then []
    else (if entries[0].isFile || entries[0].isSymlink then [entries[0].path] else []) + Listed(entries[1..])
  }

  /** Lines 18-26: all the files the inputs stand for, or the first input that is missing. */
  function Selected(inputs: seq<Bytes>, look: Bytes -> Input): Result<seq<Bytes>, Bytes> {
    if inputs == [] then Ok([])
    else
      match look(inputs[0])
      case Missing => Err(inputs[0])
      case Single(path) => Prepend([path], Selected(inputs[1..], look))
      case Directory(entries) => Prepend(Listed(entries), Selected(inputs[1..], look))
  }

  /** The path is one that this input stands for. */
  predicate StandsFor(input: Input, path: Bytes) {
    || input == Single(path)
    || (input.Directory? && exists e :: e in input.entries && e.path == path && (e.isFile || e.isSymlink))
  }

  lemma {:induction false} ListedExact(entries: seq<Entry>, path: Bytes)
    ensures path in Listed(entries) <==> StandsFor(Directory(entries), path)
  {
    if entries != [] {
      ListedExact(entries[1..], path);
      assert forall e :: e in entries <==> e == entries[0] || e in entries[1..];
    }
  }

  /** Nothing an input stands for is left out and nothing else gets in. */
  lemma {:induction false} SelectedExact(inputs: seq<Bytes>, look: Bytes -> Input, path: Bytes)
    ensures Selected(inputs, look).Ok? <==> forall name | name in inputs :: !look(name).Missing?
    ensures Selected(inputs, look).Ok? ==>
              (path in Selected(inputs, look).value <==> exists name :: name in inputs && StandsFor(look(name), path))
  {
    if inputs != [] {
      SelectedExact(inputs[1..], look, path);
      assert forall name :: name in inputs <==> name == inputs[0] || name in inputs[1..];
      if look(inputs[0]).Directory? {
        ListedExact(look(inputs[0]).entries, path);
      }
    }
  }

  function Prepend(files: seq<Bytes>, r: Result<seq<Bytes>, Bytes>): Result<seq<Bytes>, Bytes> {
    match r
    case Err(name) => Err(name)
    case Ok(rest) => Ok(files + rest)
  }

  lemma PrependTwice(a: seq<Bytes>, b: seq<Bytes>, r: Result<seq<Bytes>, Bytes>)
    ensures Prepend(a, Prepend(b, r)) == Prepend(a + b, r)
    ensures Prepend([], r) == r
  {
    if r.Ok? {
      assert a + (b + r.value) == a + b + r.value;
      assert [] + r.value == r.value;
    }
  }

  /** The list of inputs is gone through in order, and every file it stands for is kept each time it
      is met. */
  lemma {:induction false} SelectedInOrder(a: seq<Bytes>, b: seq<Bytes>, look: Bytes -> Input)
    ensures Selected(a + b, look) ==
            if Selected(a, look).Err? then Selected(a, look) else Prepend(Selected(a, look).value, Selected(b, look))
  {
    if a == [] {
      assert a + b == b;
      PrependTwice([], [], Selected(b, look));
    } else {
      assert (a + b)[1..] == a[1..] + b;
      SelectedInOrder(a[1..], b, look);
      if look(a[0]).Single? {
        PrependTwice([look(a[0]).path], if Selected(a[1..], look).Ok? then Selected(a[1..], look).value else [], Selected(b, look));
      } else if look(a[0]).Directory? {
        PrependTwice(Listed(look(a[0]).entries), if Selected(a[1..], look).Ok? then Selected(a[1..], look).value else [],
                     Selected(b, look));
      }
    }
  }

  // ---------------------------------------------------------------- what the stream says

  /** A record, spelled out: its kind, its path, whether it is executable, its length in decimal, its
      content, each closed by a NUL. */
  lemma RecordReads(path: Bytes, node: Node)
    ensures var (kind, mode, content) := match node
              case File(x, content) => (Ascii("file"), if x then [49] else [48], content)
              case Symlink(target) => (Ascii("symlink"), [48], target);
            Framed(Parts(path, node)) ==
              kind + [0] + (path + [0] + (mode + [0] + (Ascii(Digits(|content|)) + [0] + (content + [0]))))
  {
    FramedFive(Parts(path, node));
    assert Ascii("0") == [48] && Ascii("1") == [49];
  }

  /** The files are laid out in ascending order of their paths, byte by byte, behind the header. */
  lemma StreamReads(found: seq<Bytes>, tree: Tree, paths: seq<Bytes>)
    requires multiset(paths) == multiset(found)
    requires forall i, j | 0 <= i < j < |paths| :: !Less(paths[j], paths[i])
    ensures Stream(found, tree) == Ascii("esignet-candidate-source-v1") + [0] + Records(paths, tree)
  {
    SortedUnique(PathKey, SortBy(PathKey, found), paths);
  }

  // ---------------------------------------------------------------- unique decodability

  /** Two NUL-free parts followed by a NUL split the same bytes at the same place. */
  lemma NulSplits(x: Bytes, r: Bytes, y: Bytes, s: Bytes)
    requires NUL !in x && NUL !in y
    requires x + [NUL] + r == y + [NUL] + s
    ensures x == y && r == s
  {
    var z := x + [NUL] + r;
    assert z[|x|] == NUL && z[|y|] == NUL;
    assert forall i | 0 <= i < |x| :: z[i] == x[i] && z[i] != NUL;
    assert forall i | 0 <= i < |y| :: z[i] == y[i] && z[i] != NUL;
    assert x == z[..|x|] && y == z[..|y|];
    assert r == z[|x| + 1..] && s == z[|y| + 1..];
  }

  lemma LengthInjective(m: nat, n: nat)
    requires Length(m) == Length(n)
    ensures m == n
  {
    AsciiInjective(Digits(m), Digits(n));
    DecimalRoundTrip(m);
    DecimalRoundTrip(n);
  }

  lemma PartsNulFree(path: Bytes, node: Node)
    requires NUL !in path
    ensures SelfSized(Parts(path, node))
  {
    var n := |Parts(path, node)[4]|;
    forall b | b in Length(n)
      ensures b != NUL
    {
      var i :| 0 <= i < |Length(n)| && Length(n)[i] == b;
      assert Digits(n)[i] in Digits(n) && IsDigit(Digits(n)[i]);
    }
  }

  lemma PartsDetermine(path: Bytes, node: Node, path': Bytes, node': Node)
    requires Parts(path, node) == Parts(path', node')
    ensures path == path' && node == node'
  {
    var p, p' := Parts(path, node), Parts(path', node');
    assert p[0] == p'[0] && p[1] == p'[1] && p[2] == p'[2] && p[4] == p'[4];
    assert |Ascii("file")| == 4 && |Ascii("symlink")| == 7;
    assert Ascii("1")[0] == 49 && Ascii("0")[0] == 48;
  }

  /** One record can be read off the front of a stream, whatever the content holds. */
  lemma RecordSplits(path: Bytes, node: Node, r: Bytes, path': Bytes, node': Node, s: Bytes)
    requires NUL !in path && NUL !in path'
    requires Framed(Parts(path, node)) + r == Framed(Parts(path', node')) + s
    ensures path == path' && node == node' && r == s
  {
    PartsNulFree(path, node);
    PartsNulFree(path', node');
    PartsSplit(Parts(path, node), r, Parts(path', node'), s);
    PartsDetermine(path, node, path', node');
  }

  predicate SelfSized(p: seq<Bytes>) {
    |p| == 5 && NUL !in p[0] && NUL !in p[1] && NUL !in p[2] && NUL !in p[3] && p[3] == Length(|p[4]|)
  }

  lemma PartsSplit(p: seq<Bytes>, r: Bytes, q: seq<Bytes>, s: Bytes)
    requires SelfSized(p) && SelfSized(q)
    requires Framed(p) + r == Framed(q) + s
    ensures p == q && r == s
  {
    FramedFive(p);
    FramedFive(q);
    var p4, q4 := p[4] + [NUL] + r, q[4] + [NUL] + s;
    var p3, q3 := p[3] + [NUL] + p4, q[3] + [NUL] + q4;
    var p2, q2 := p[2] + [NUL] + p3, q[2] + [NUL] + q3;
    var p1, q1 := p[1] + [NUL] + p2, q[1] + [NUL] + q2;
    assert p[0] + [NUL] + p1 == Framed(p) + r;
    assert q[0] + [NUL] + q1 == Framed(q) + s;
    NulSplits(p[0], p1, q[0], q1);
    NulSplits(p[1], p2, q[1], q2);
    NulSplits(p[2], p3, q[2], q3);
    NulSplits(p[3], p4, q[3], q4);
    LengthInjective(|p[4]|, |q[4]|);
    assert p[4] == p4[..|p[4]|] && q[4] == q4[..|q[4]|];
    assert r == p4[|p[4]| + 1..] && s == q4[|q[4]| + 1..];
  }

  lemma FramedFive(p: seq<Bytes>)
    requires |p| == 5
    ensures Framed(p) == p[0] + [NUL] + (p[1] + [NUL] + (p[2] + [NUL] + (p[3] + [NUL] + (p[4] + [NUL]))))
  {
    assert p[1..][1..] == p[2..] && p[2..][1..] == p[3..] && p[3..][1..] == p[4..] && p[4..][1..] == [];
    assert Framed(p[4..]) == p[4] + [NUL];
    assert Framed(p[3..]) == p[3] + [NUL] + Framed(p[4..]);
    assert Framed(p[2..]) == p[2] + [NUL] + Framed(p[3..]);
    assert Framed(p[1..]) == p[1] + [NUL] + Framed(p[2..]);
  }

  lemma {:induction false} RecordsDetermine(paths: seq<Bytes>, tree: Tree, paths': seq<Bytes>, tree': Tree)
    requires forall p | p in paths :: NUL !in p
    requires forall p | p in paths' :: NUL !in p
    requires Records(paths, tree) == Records(paths', tree')
    ensures paths == paths' && forall p | p in paths :: tree(p) == tree'(p)
  {
    if paths != [] && paths' != [] {
      RecordSplits(paths[0], tree(paths[0]), Records(paths[1..], tree), paths'[0], tree'(paths'[0]), Records(paths'[1..], tree'));
      RecordsDetermine(paths[1..], tree, paths'[1..], tree');
      assert paths == [paths[0]] + paths[1..] && paths' == [paths'[0]] + paths'[1..];
    }
  }

  /** The framing is uniquely decodable: two trees that feed the hash the same bytes have the
      same files, kinds, executable bits and contents. */
  lemma StreamDetermines(found: seq<Bytes>, tree: Tree, found': seq<Bytes>, tree': Tree)
    requires forall p | p in found :: NUL !in p
    requires forall p | p in found' :: NUL !in p
    requires Stream(found, tree) == Stream(found', tree')
    ensures multiset(found) == multiset(found')
    ensures forall p | p in found :: tree(p) == tree'(p)
  {
    var xs, ys := SortBy(PathKey, found), SortBy(PathKey, found');
    var header := Ascii("esignet-candidate-source-v1") + [NUL];
    assert Records(xs, tree) == Stream(found, tree)[|header|..];
    assert Records(ys, tree') == Stream(found', tree')[|header|..];
    SameElements(found, xs);
    SameElements(found', ys);
    RecordsDetermine(xs, tree, ys, tree');
  }

  lemma SameElements(a: seq<Bytes>, b: seq<Bytes>)
    requires multiset(a) == multiset(b)
    ensures forall p :: p in a <==> p in b
  {
    forall p
      ensures p in a <==> p in b
    {
      assert p in a <==> p in multiset(a);
      assert p in b <==> p in multiset(b);
    }
  }

  /** The bytes do not depend on the order in which the files were found. */
  lemma StreamIgnoresOrder(found: seq<Bytes>, found': seq<Bytes>, tree: Tree)
    requires multiset(found) == multiset(found')
    ensures Stream(found, tree) == Stream(found', tree)
  {
    SortIgnoresOrder(PathKey, found, found');
  }

  /** A metadata digest pins the sources, as far as the hash does not collide on the two streams. */
  lemma DigestPinsSources(hash: Bytes -> Bytes, found: seq<Bytes>, tree: Tree, found': seq<Bytes>, tree': Tree)
    requires forall p | p in found :: NUL !in p
    requires forall p | p in found' :: NUL !in p
    requires hash(Stream(found, tree)) == hash(Stream(found', tree')) ==> Stream(found, tree) == Stream(found', tree')
    ensures hash(Stream(found, tree)) == hash(Stream(found', tree')) <==>
              && multiset(found) == multiset(found') && forall p | p in found :: tree(p) == tree'(p)
  {
    if hash(Stream(found, tree)) == hash(Stream(found', tree')) {
      StreamDetermines(found, tree, found', tree');
    } else if multiset(found) == multiset(found') && forall p | p in found :: tree(p) == tree'(p) {
      StreamIgnoresOrder(found, found', tree);
      SameElements(found', SortBy(PathKey, found'));
      SameElements(found, found');
      RecordsAgree(SortBy(PathKey, found'), tree, tree');
    }
  }

  lemma {:induction false} RecordsAgree(paths: seq<Bytes>, tree: Tree, tree': Tree)
    requires forall p | p in paths :: tree(p) == tree'(p)
    ensures Records(paths, tree) == Records(paths, tree')
  {
    if paths != [] {
      RecordsAgree(paths[1..], tree, tree');
    }
  }

  // ---------------------------------------------------------------- the script

  /** hashlib's running digest: what it has been fed so far. */
  class Digest {
    var fed: Bytes

    constructor (first: Bytes)
      ensures fed == first
    {
      fed := first;
    }

    method Update(part: Bytes)
      modifies this
      ensures fed == old(fed) + part
    {
      fed := fed + part;
    }
  }

  method UpdateAll(digest: Digest, parts: seq<Bytes>)
    modifies digest
    ensures digest.fed == old(digest.fed) + Framed(parts)
  {
    for i := 0 to |parts|
      invariant old(digest.fed) + Framed(parts) == digest.fed + Framed(parts[i..])
    {
      assert parts[i..][1..] == parts[i + 1..];
      digest.Update(parts[i]);
      digest.Update([NUL]);
    }
  }

  method Select(inputs: seq<Bytes>, look: Bytes -> Input) returns (r: Result<seq<Bytes>, Bytes>)
    ensures r == Selected(inputs, look)
    ensures r.Err? ==> exists i | 0 <= i < |inputs| ::
              inputs[i] == r.error && look(inputs[i]).Missing? && forall j | 0 <= j < i :: !look(inputs[j]).Missing?
  {
    var files: seq<Bytes> := [];
    PrependTwice([], [], Selected(inputs, look));
    for i := 0 to |inputs|
      invariant Selected(inputs, look) == Prepend(files, Selected(inputs[i..], look))
      invariant forall j | 0 <= j < i :: !look(inputs[j]).Missing?
    {
      assert inputs[i..][1..] == inputs[i + 1..];
      var more: seq<Bytes>;
      match look(inputs[i]) {
        case Directory(entries) => more := Listed(entries);
        case Single(path) => more := [path];
        case Missing => return Err(inputs[i]);
      }
      PrependTwice(files, more, Selected(inputs[i + 1..], look));
      files := files + more;
    }
    assert inputs[|inputs|..] == [] && files + [] == files;
    return Ok(files);
  }

  lemma OneMoreRecord(fed: Bytes, sorted: seq<Bytes>, i: nat, tree: Tree)
    requires i < |sorted|
    ensures fed + Records(sorted[i..], tree) ==
            fed + Framed(Parts(sorted[i], tree(sorted[i]))) + Records(sorted[i + 1..], tree)
  {
    assert sorted[i..][1..] == sorted[i + 1..];
  }

  method FeedRecords(digest: Digest, sorted: seq<Bytes>, tree: Tree)
    modifies digest
    ensures digest.fed == old(digest.fed) + Records(sorted, tree)
  {
    ghost var whole := digest.fed + Records(sorted, tree);
    assert sorted[0..] == sorted;
    for i := 0 to |sorted|
      invariant whole == digest.fed + Records(sorted[i..], tree)
    {
      OneMoreRecord(digest.fed, sorted, i, tree);
      UpdateAll(digest, Parts(sorted[i], tree(sorted[i])));
    }
    assert sorted[|sorted|..] == [];
  }

  /** source_hash: the digest of the selected files' stream, or the input that is missing. */
  method SourceHash(inputs: seq<Bytes>, look: Bytes -> Input, tree: Tree, hash: Bytes -> Bytes)
    returns (r: Result<Bytes, Bytes>)
    ensures Selected(inputs, look).Ok? ==> r == Ok(hash(Stream(Selected(inputs, look).value, tree)))
    ensures Selected(inputs, look).Err? <==> r.Err?
    ensures r.Err? ==> exists i | 0 <= i < |inputs| ::
              inputs[i] == r.error && look(inputs[i]).Missing? && forall j | 0 <= j < i :: !look(inputs[j]).Missing?
  {
    var files := Select(inputs, look);
    if files.Err? {
      return Err(files.error);
    }
    var digest := new Digest(Ascii("esignet-candidate-source-v1") + [NUL]);
    FeedRecords(digest, SortBy(PathKey, files.value), tree);
    return Ok(hash(digest.fed));
  }
}
