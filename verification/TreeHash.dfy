/** The byte stream whose digest identifies a reviewed runtime tree. */
module TreeHash {
  import opened Common
  import opened ByteStream
  import NameOrder

  /** "rpackit-webview2-tree-v1\0" */
  const DOMAIN: Bytes :=
    [0x72, 0x70, 0x61, 0x63, 0x6B, 0x69, 0x74, 0x2D, 0x77, 0x65, 0x62, 0x76, 0x69, 0x65, 0x77, 0x32, 0x2D,
     0x74, 0x72, 0x65, 0x65, 0x2D, 0x76, 0x31, 0x00]
  const SLASH: Byte := 0x2F
  const MAX_RELATIVE_PATH_BYTES: nat := 512
  const U32_MAX: nat := 0xFFFF_FFFF

  // ------------------------------------------------------- relative paths

  /** The components of a path below the root, joined by slashes. */
  function Joined(components: seq<Bytes>): Bytes
  {
    if components == [] then []
    else if |components| == 1 then components[0]
    else components[0] + [SLASH] + Joined(components[1..])
  }

  ghost predicate IsComponent(c: Bytes) { c != [] && SLASH !in c }

  /** A component that is not one ordinary Unicode name is None. */
  ghost function Names(components: seq<Option<Bytes>>): seq<Bytes>
    requires forall i :: 0 <= i < |components| ==> components[i].Some?
  {
    seq(|components|, i requires 0 <= i < |components| => components[i].value)
  }

  method NormalizedRelativePath(components: seq<Option<Bytes>>) returns (r: Option<Bytes>)
    requires forall i :: 0 <= i < |components| && components[i].Some? ==> IsComponent(components[i].value)
    ensures r.Some? <==>
              && (forall i :: 0 <= i < |components| ==> components[i].Some?)
              && 0 < |Joined(Names(components))| <= 512
    ensures r.Some? ==> r.value == Joined(Names(components))
  {
    hide Joined, IsComponent;
    var normalized: Bytes := [];
    JoinedIsEmpty([]);
    assert Names(components[..0]) == [];
    for i := 0 to |components|
      invariant forall j :: 0 <= j < i ==> components[j].Some?
      invariant normalized == Joined(Names(components[..i]))
    {
      if components[i].None? { return None; }
      var part := components[i].value;
      JoinedAppend(Names(components[..i]), part);
      assert Names(components[..i + 1]) == Names(components[..i]) + [part];
      if |normalized| > 0 { normalized := normalized + [SLASH]; }
      else { JoinedIsEmpty(Names(components[..i])); }
      normalized := normalized + part;
    }
    assert components[..|components|] == components;
    if |normalized| == 0 || |normalized| > MAX_RELATIVE_PATH_BYTES { return None; }
    return Some(normalized);
  }

  lemma {:induction false} JoinedAppend(components: seq<Bytes>, c: Bytes)
    ensures Joined(components + [c]) == if components == [] then c else Joined(components) + [0x2F] + c
  {
    if components == [] {
      assert components + [c] == [c];
    } else {
      assert (components + [c])[1..] == components[1..] + [c];
      JoinedAppend(components[1..], c);
      if |components| > 1 {
        assert components[0] + [SLASH] + (Joined(components[1..]) + [SLASH] + c)
            == Joined(components) + [SLASH] + c;
      } else {
        assert components[1..] + [c] == [c];
      }
    }
  }

  lemma JoinedIsEmpty(components: seq<Bytes>)
    requires forall i :: 0 <= i < |components| ==> IsComponent(components[i])
    ensures Joined(components) == [] <==> components == []
  {
    if components != [] { assert IsComponent(components[0]); }
  }

  function Cut(s: Bytes): Bytes
  {
    if s == [] || s[0] == SLASH then [] else [s[0]] + Cut(s[1..])
  }

  lemma {:induction false} CutStops(head: Bytes, rest: Bytes)
    requires SLASH !in head && (rest == [] || rest[0] == SLASH)
    ensures Cut(head + rest) == head
  {
    if head != [] {
      assert (head + rest)[1..] == head[1..] + rest;
      CutStops(head[1..], rest);
    } else {
      assert head + rest == rest;
    }
  }

  function AfterFirst(components: seq<Bytes>): Bytes
    requires components != []
  {
    if |components| == 1 then [] else [SLASH] + Joined(components[1..])
  }

  lemma JoinedInTwo(components: seq<Bytes>)
    requires components != [] && IsComponent(components[0])
    ensures Joined(components) == components[0] + AfterFirst(components)
    ensures Cut(Joined(components)) == components[0]
    ensures Joined(components)[|components[0]|..] == AfterFirst(components)
  {
    hide Joined;
    var first, rest := components[0], AfterFirst(components);
    assert Joined(components) == first + rest by { JoinedIsTwo(components); }
    CutStops(first, rest);
    assert (first + rest)[|first|..] == rest;
  }

  lemma JoinedIsTwo(components: seq<Bytes>)
    requires components != []
    ensures Joined(components) == components[0] + AfterFirst(components)
  {
    hide IsComponent;
    if |components| > 1 {
      assert components[0] + [SLASH] + Joined(components[1..]) == components[0] + ([SLASH] + Joined(components[1..]));
    } else {
      assert components[0] + [] == components[0];
    }
  }

  /** Different paths have different texts. */
  lemma {:induction false} JoinedIsInjective(a: seq<Bytes>, b: seq<Bytes>)
    requires forall i :: 0 <= i < |a| ==> IsComponent(a[i])
    requires forall i :: 0 <= i < |b| ==> IsComponent(b[i])
    requires Joined(a) == Joined(b)
    ensures a == b
    decreases |a|
  {
    hide Cut, IsComponent;
    JoinedIsEmpty(a);
    JoinedIsEmpty(b);
    if a != [] {
      JoinedInTwo(a);
      JoinedInTwo(b);
      if |a| > 1 {
        assert Joined(a[1..]) == AfterFirst(a)[1..] && Joined(b[1..]) == AfterFirst(b)[1..];
        JoinedIsInjective(a[1..], b[1..]);
      }
      assert a == [a[0]] + a[1..] && b == [b[0]] + b[1..];
    }
  }

  // -------------------------------------------------------- the fed stream

  /** A regular file as it was read. */
  datatype File = File(relative: Bytes, contents: Bytes)

  predicate Encodable(f: File) { |f.relative| <= U32_MAX && |f.contents| <= U64_MAX }

  function LittleEndian(value: nat, width: nat): (r: Bytes)
    ensures |r| == width
    decreases width
  {
    if width == 0 then [] else [value % 0x100] + LittleEndian(value / 0x100, width - 1)
  }

  /** A length-prefixed string. */
  function Prefixed(bytes: Bytes, width: nat): Bytes { LittleEndian(|bytes|, width) + bytes }

  function Record(f: File): Bytes { Prefixed(f.relative, 4) + Prefixed(f.contents, 8) }

  function Records(files: seq<File>): Bytes
  {
    if files == [] then [] else Record(files[0]) + Records(files[1..])
  }

  function Stream(files: seq<File>): Bytes { DOMAIN + Records(files) }

  /** A listed file: the length its metadata recorded, and what successive
      reads return; an empty read, or the end of the list, is end of file. */
  datatype Listed = Listed(relative: Bytes, length: nat, chunks: seq<Bytes>)

  function Contents(chunks: seq<Bytes>): Bytes
  {
    if chunks == [] || chunks[0] == [] then [] else chunks[0] + Contents(chunks[1..])
  }

  function AsRead(files: seq<Listed>): (r: seq<File>)
    ensures |r| == |files|
  {
    seq(|files|, i requires 0 <= i < |files| => File(files[i].relative, Contents(files[i].chunks)))
  }

  method FeedContents(before: Bytes, chunks: seq<Bytes>) returns (hashed: Bytes, observed: nat)
    ensures hashed == before + Contents(chunks) && observed == |Contents(chunks)|
  {
    hashed, observed := before, 0;
    var j := 0;
    while j < |chunks| && |chunks[j]| > 0
      invariant 0 <= j <= |chunks|
      invariant hashed + Contents(chunks[j..]) == before + Contents(chunks)
      invariant observed + |Contents(chunks[j..])| == |Contents(chunks)|
    {
      assert chunks[j..][1..] == chunks[j + 1..] && chunks[j..][0] == chunks[j];
      observed := observed + |chunks[j]|;
      hashed := hashed + chunks[j];
      j := j + 1;
    }
  }

  /** What is hashed, or None when a file no longer has its recorded length. */
  method HashRuntimeTree(files: seq<Listed>) returns (fed: Option<Bytes>)
    requires forall i :: 0 <= i < |files| ==> files[i].length <= U64_MAX && |files[i].relative| <= U32_MAX
    ensures fed.Some? <==> forall i :: 0 <= i < |files| ==> |Contents(files[i].chunks)| == files[i].length
    ensures fed.Some? ==> fed.value == Stream(AsRead(files))
  {
    hide Stream, LittleEndian, Contents;
    var hashed := DOMAIN;
    StreamOfNothing();
    for k := 0 to |files|
      invariant forall i :: 0 <= i < k ==> |Contents(files[i].chunks)| == files[i].length
      invariant hashed == Stream(AsRead(files[..k]))
    {
      var f := files[k];
      ghost var before := hashed;
      hashed := hashed + LittleEndian(|f.relative|, 4) + f.relative + LittleEndian(f.length, 8);
      var observed;
      hashed, observed := FeedContents(hashed, f.chunks);
      if observed != f.length { return None; }
      ghost var file := File(f.relative, Contents(f.chunks));
      StreamAppend(AsRead(files[..k]), file);
      assert AsRead(files[..k + 1]) == AsRead(files[..k]) + [file];
      RecordInParts(before, file);
    }
    assert files[..|files|] == files;
    return Some(hashed);
  }

  lemma {:induction false} RecordsAppend(files: seq<File>, f: File)
    ensures Records(files + [f]) == Records(files) + Record(f)
  {
    if files == [] {
      assert files + [f] == [f] && Records([f][1..]) == [];
    } else {
      assert (files + [f])[1..] == files[1..] + [f];
      RecordsAppend(files[1..], f);
    }
  }

  lemma StreamAppend(files: seq<File>, f: File)
    ensures Stream(files + [f]) == Stream(files) + Record(f)
  {
    hide Record, Records;
    RecordsAppend(files, f);
    Associates(DOMAIN, Records(files), Record(f));
  }

  lemma Associates(a: Bytes, b: Bytes, c: Bytes)
    ensures a + (b + c) == a + b + c
  {
  }

  lemma StreamOfNothing()
    ensures Stream([]) == DOMAIN && AsRead([]) == []
  {
  }

  lemma RecordInParts(before: Bytes, f: File)
    ensures before + LittleEndian(|f.relative|, 4) + f.relative + LittleEndian(|f.contents|, 8) + f.contents
         == before + Record(f)
  {
    hide LittleEndian;
  }

  // ---------------------------------------------------------- injectivity

  function Power256(width: nat): nat { if width == 0 then 1 else 0x100 * Power256(width - 1) }

  lemma {:induction false} LittleEndianIsInjective(a: nat, b: nat, width: nat)
    requires a < Power256(width) && b < Power256(width)
    requires LittleEndian(a, width) == LittleEndian(b, width)
    ensures a == b
    decreases width
  {
    if width > 0 {
      var la, lb := LittleEndian(a, width), LittleEndian(b, width);
      assert la[0] == a % 0x100 && lb[0] == b % 0x100;
      assert la[1..] == LittleEndian(a / 0x100, width - 1) && lb[1..] == LittleEndian(b / 0x100, width - 1);
      LittleEndianIsInjective(a / 0x100, b / 0x100, width - 1);
    }
  }

  lemma WidthsSuffice()
    ensures Power256(4) == U32_MAX + 1 && Power256(8) == U64_MAX + 1
  {
    assert Power256(2) == 0x1_0000;
    assert Power256(4) == 0x1_0000_0000;
    assert Power256(6) == 0x1_0000_0000_0000;
  }

  lemma SplitEqual(a: Bytes, x: Bytes, b: Bytes, y: Bytes)
    requires a + x == b + y && |a| == |b|
    ensures a == b && x == y
  {
    assert a == (a + x)[..|a|] && b == (b + y)[..|b|];
    assert x == (a + x)[|a|..] && y == (b + y)[|b|..];
  }

  lemma PrefixedIsSelfDelimiting(a: Bytes, x: Bytes, b: Bytes, y: Bytes, width: nat)
    requires |a| < Power256(width) && |b| < Power256(width)
    requires Prefixed(a, width) + x == Prefixed(b, width) + y
    ensures a == b && x == y
  {
    hide Power256;
    var la, lb := LittleEndian(|a|, width), LittleEndian(|b|, width);
    assert Prefixed(a, width) + x == la + (a + x) && Prefixed(b, width) + y == lb + (b + y);
    SplitEqual(la, a + x, lb, b + y);
    LittleEndianIsInjective(|a|, |b|, width);
    SplitEqual(a, x, b, y);
  }

  lemma RecordsDoNotOverlap(f: File, x: Bytes, g: File, y: Bytes)
    requires Encodable(f) && Encodable(g) && Record(f) + x == Record(g) + y
    ensures f == g && x == y
  {
    hide Power256, Prefixed;
    WidthsSuffice();
    var cf, cg := Prefixed(f.contents, 8), Prefixed(g.contents, 8);
    assert Record(f) + x == Prefixed(f.relative, 4) + (cf + x);
    assert Record(g) + y == Prefixed(g.relative, 4) + (cg + y);
    PrefixedIsSelfDelimiting(f.relative, cf + x, g.relative, cg + y, 4);
    PrefixedIsSelfDelimiting(f.contents, x, g.contents, y, 8);
  }

  lemma {:induction false} RecordsAreInjective(a: seq<File>, b: seq<File>)
    requires forall i :: 0 <= i < |a| ==> Encodable(a[i])
    requires forall i :: 0 <= i < |b| ==> Encodable(b[i])
    requires Records(a) == Records(b)
    ensures a == b
    decreases |a|
  {
    assert a != [] ==> Records(a) != [];
    assert b != [] ==> Records(b) != [];
    if a != [] {
      RecordsDoNotOverlap(a[0], Records(a[1..]), b[0], Records(b[1..]));
      RecordsAreInjective(a[1..], b[1..]);
      assert a == [a[0]] + a[1..] && b == [b[0]] + b[1..];
    }
  }

  /** Main result: two trees feed the hash the same bytes only if they have the
      same files, with the same paths and contents, in the same order. */
  lemma StreamIsInjective(a: seq<File>, b: seq<File>)
    requires forall i :: 0 <= i < |a| ==> Encodable(a[i])
    requires forall i :: 0 <= i < |b| ==> Encodable(b[i])
    ensures Stream(a) == Stream(b) <==> a == b
  {
    if Stream(a) == Stream(b) {
      SplitEqual(DOMAIN, Records(a), DOMAIN, Records(b));
      RecordsAreInjective(a, b);
    }
  }

  // ------------------------------------------------- enumeration order

  predicate Before(f: File, g: File) { NameOrder.Less(f.relative, g.relative) }

  /** Sorted by path, equal paths in any order, as a library sort leaves it. */
  ghost predicate SortedByPath(files: seq<File>)
  {
    forall i, j :: 0 <= i < j < |files| ==> !Before(files[j], files[i])
  }

  ghost predicate DistinctPaths(files: seq<File>)
  {
    forall i, j :: 0 <= i < j < |files| ==> files[i].relative != files[j].relative
  }

  lemma SameSetSameFirst(a: seq<File>, b: seq<File>)
    requires a != [] && b != [] && SortedByPath(a) && SortedByPath(b)
    requires DistinctPaths(a) && multiset(a) == multiset(b)
    ensures a[0] == b[0]
  {
    assert a[0] in multiset(b) && b[0] in multiset(a);
    var i :| 0 <= i < |a| && a[i] == b[0];
    var j :| 0 <= j < |b| && b[j] == a[0];
    if i > 0 && j > 0 {
      assert !Before(a[i], a[0]) && !Before(b[j], b[0]);
      NameOrder.LessTotal(a[0].relative, b[0].relative);
    }
  }

  /** Main result: a sorted list of files with distinct paths depends only on
      which files there are, so the stream does not depend on the order in
      which directories were enumerated. */
  lemma {:induction false} EnumerationOrderIsInvisible(a: seq<File>, b: seq<File>)
    requires SortedByPath(a) && SortedByPath(b) && DistinctPaths(a)
    requires multiset(a) == multiset(b)
    ensures a == b && Stream(a) == Stream(b)
    decreases |a|
  {
    assert |a| == |multiset(a)| == |multiset(b)| == |b|;
    if a != [] {
      SameSetSameFirst(a, b);
      assert a == [a[0]] + a[1..] && b == [b[0]] + b[1..];
      assert multiset(a[1..]) == multiset(a) - multiset{a[0]};
      assert multiset(b[1..]) == multiset(b) - multiset{b[0]};
      EnumerationOrderIsInvisible(a[1..], b[1..]);
    }
  }

  // ---------------------------------------------------- reading a stream back

  /** What bytes mean with the least significant one first. */
  function NumberIn(bytes: Bytes): nat
  {
    if bytes == [] then 0
    else
      var last: int := bytes[|bytes| - 1];
      NumberIn(bytes[..|bytes| - 1]) + last * Power256(|bytes| - 1)
  }

  lemma {:induction false} NumberInCons(first: Byte, rest: Bytes)
    ensures NumberIn([first] + rest) == first + 0x100 * NumberIn(rest)
    decreases |rest|
  {
    var whole := [first] + rest;
    if rest == [] {
      assert whole[..0] == [] && NumberIn(whole[..0]) == 0 && whole[|whole| - 1] == first;
    } else {
      var init := rest[..|rest| - 1];
      var last: int := rest[|rest| - 1];
      assert whole[..|whole| - 1] == [first] + init;
      NumberInCons(first, init);
      assert last * (0x100 * Power256(|init|)) == 0x100 * (last * Power256(|init|));
    }
  }

  lemma {:induction false} LittleEndianReadsBack(value: nat, width: nat)
    requires value < Power256(width)
    ensures NumberIn(LittleEndian(value, width)) == value
    decreases width
  {
    if width > 0 {
      LittleEndianReadsBack(value / 0x100, width - 1);
      NumberInCons(value % 0x100, LittleEndian(value / 0x100, width - 1));
    }
  }

  /** A reader of records: a four-byte length and a path, an eight-byte length
      and contents, until nothing is left. */
  function ReadRecords(bytes: Bytes): Option<seq<File>>
    decreases |bytes|
  {
    if bytes == [] then Some([])
    else if |bytes| < 4 || |bytes| < 12 + NumberIn(bytes[..4]) then None
    else
      var p := 4 + NumberIn(bytes[..4]);
      var n := NumberIn(bytes[p..p + 8]);
      if |bytes| < p + 8 + n then None
      else match ReadRecords(bytes[p + 8 + n..])
        case None => None
        case Some(files) => Some([File(bytes[4..p], bytes[p + 8..p + 8 + n])] + files)
  }

  lemma RecordReadsBack(f: File, rest: Bytes)
    requires Encodable(f)
    ensures var bytes := Record(f) + rest;
            var p := 4 + |f.relative|;
            var n := |f.contents|;
            && |bytes| >= p + 8 + n && NumberIn(bytes[..4]) == |f.relative| && NumberIn(bytes[p..p + 8]) == n
            && bytes[4..p] == f.relative && bytes[p + 8..p + 8 + n] == f.contents && bytes[p + 8 + n..] == rest
  {
    hide NumberIn, LittleEndian, Power256;
    WidthsSuffice();
    var a, b := LittleEndian(|f.relative|, 4), LittleEndian(|f.contents|, 8);
    LittleEndianReadsBack(|f.relative|, 4);
    LittleEndianReadsBack(|f.contents|, 8);
    var bytes := Record(f) + rest;
    assert bytes == a + f.relative + b + f.contents + rest;
    assert bytes[..4] == a && bytes[4 + |f.relative|..12 + |f.relative|] == b;
  }

  lemma {:induction false} RecordsReadBack(files: seq<File>)
    requires forall i :: 0 <= i < |files| ==> Encodable(files[i])
    ensures ReadRecords(Records(files)) == Some(files)
    decreases |files|
  {
    hide NumberIn, Encodable;
    if files != [] {
      RecordReadsBack(files[0], Records(files[1..]));
      RecordsReadBack(files[1..]);
      assert [files[0]] + files[1..] == files;
    }
  }

  /** Main result: the stream is the domain, spelled out, and then records from
      which a reader recovers every path and every content, in order. */
  lemma StreamReadsBack(files: seq<File>)
    requires forall i :: 0 <= i < |files| ==> Encodable(files[i])
    ensures var domain := "rpackit-webview2-tree-v1\0";
            && |Stream(files)| >= |domain|
            && (forall i :: 0 <= i < |domain| ==> Stream(files)[i] == domain[i] as int)
            && ReadRecords(Stream(files)[|domain|..]) == Some(files)
  {
    hide Records;
    RecordsReadBack(files);
    var domain := "rpackit-webview2-tree-v1\0";
    DomainIsSpelled();
    assert Stream(files)[|domain|..] == Records(files);
  }

  lemma DomainIsSpelled()
    ensures var domain := "rpackit-webview2-tree-v1\0";
            |DOMAIN| == |domain| && forall i :: 0 <= i < |domain| ==> DOMAIN[i] == domain[i] as int
  {
  }

  function Flat(chunks: seq<Bytes>): Bytes
  {
    if chunks == [] then [] else Flat(chunks[..|chunks| - 1]) + chunks[|chunks| - 1]
  }

  /** A file is everything read up to the first empty read, or the last. */
  lemma {:induction false} ContentsAreAllReads(chunks: seq<Bytes>, rest: seq<Bytes>)
    requires forall i :: 0 <= i < |chunks| ==> chunks[i] != []
    requires rest == [] || rest[0] == []
    ensures Contents(chunks + rest) == Flat(chunks)
    decreases |chunks|
  {
    if chunks == [] {
      assert chunks + rest == rest;
    } else {
      assert (chunks + rest)[1..] == chunks[1..] + rest;
      ContentsAreAllReads(chunks[1..], rest);
      FlatCons(chunks);
    }
  }

  lemma {:induction false} FlatCons(chunks: seq<Bytes>)
    requires chunks != []
    ensures Flat(chunks) == chunks[0] + Flat(chunks[1..])
    decreases |chunks|
  {
    if |chunks| > 1 {
      var init := chunks[..|chunks| - 1];
      FlatCons(init);
      assert init[1..] == chunks[1..][..|chunks| - 2];
      Associates(chunks[0], Flat(init[1..]), chunks[|chunks| - 1]);
    } else {
      assert chunks[..0] == [] && chunks[1..] == [];
      assert [] + chunks[0] == chunks[0] + [];
    }
  }
}
