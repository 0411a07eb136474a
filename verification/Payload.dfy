/** Hard-link analysis and file lookup of the payload reader (payload.go, fileinfo.go). */
module Payload {
  import opened Bytes
  import opened Outcomes
  import opened Streams
  import opened CpioFormat
  import opened CpioMachine
  import opened CpioArchive
  import opened CpioDelivery
  import opened CpioReader
  import opened CpioReadThrough

  type uint64 = n: nat | n < 0x1_0000_0000_0000_0000

  /** The attributes of a file the payload reader looks at. */
  datatype FileInfo = FileInfo(name: seq<byte>, size: uint64, mode: uint32, linkName: seq<byte>, device: uint32,
                               inode: uint32)

  const S_ISREG := 0x8000
  const S_ISLNK := 0xA000

  /** The mode without its twelve permission bits. */
  function FileType(f: FileInfo): (t: nat) { f.mode - f.mode % 4096 }

  function Inode64(f: FileInfo): (n: nat) { f.device * TWO_TO_32 + f.inode }

  /** int64(size) */
  function SizeOf(f: FileInfo): (n: int) {
    if f.size < 0x8000_0000_0000_0000 then f.size else f.size - 0x1_0000_0000_0000_0000
  }

  // ---- specification -------------------------------------------------------

  predicate Regular(f: FileInfo) { FileType(f) == S_ISREG }

  /** Both are regular files with the same device and inode. */
  predicate SameInode(f: FileInfo, g: FileInfo) { Regular(f) && Regular(g) && Inode64(f) == Inode64(g) }

  /** File i has an inode and a later member of its link group carries the contents. */
  ghost predicate IsHardLink(files: seq<FileInfo>, i: nat)
    requires i < |files|
  {
    Inode64(files[i]) != 0 && exists j :: i < j < |files| && SameInode(files[i], files[j])
  }

  /** The size of the contents of file i in the payload. */
  ghost function PayloadSize(files: seq<FileInfo>, i: nat): (n: int)
    requires i < |files|
  {
    var f := files[i];
    if Regular(f) then (if IsHardLink(files, i) then 0 else SizeOf(f))
    else if FileType(f) == S_ISLNK then |f.linkName|
    else 0
  }

  /** The last file with a name. */
  ghost predicate IsLastNamed(files: seq<FileInfo>, name: seq<byte>, i: nat) {
    i < |files| && files[i].name == name && forall j :: i < j < |files| ==> files[j].name != name
  }

  // ---- the analysis --------------------------------------------------------

  /** `last` maps each inode among the first n files to the last regular file that has it. */
  ghost predicate LastInodes(last: map<nat, nat>, files: seq<FileInfo>, n: nat)
    requires n <= |files|
  {
    && (forall k :: 0 <= k < n && Regular(files[k]) ==> Inode64(files[k]) in last && k <= last[Inode64(files[k])])
    && (forall o :: o in last ==> last[o] < n && Regular(files[last[o]]) && Inode64(files[last[o]]) == o)
  }

  /** Adding file n makes a hard link of the last earlier file with its inode, and of no other. */
  lemma {:induction false} LinkStep(files: seq<FileInfo>, last: map<nat, nat>, n: nat, k: nat)
    requires k < n < |files| && LastInodes(last, files, n)
    ensures IsHardLink(files[..n + 1], k) <==>
      IsHardLink(files[..n], k) || (Regular(files[n]) && Inode64(files[n]) != 0
                                    && Inode64(files[n]) in last && last[Inode64(files[n])] == k)
  {
    hide Inode64, FileType;
    var p, q := files[..n], files[..n + 1];
    assert forall j :: 0 <= j < n ==> p[j] == q[j] == files[j];
    assert q[n] == files[n];
    if IsHardLink(p, k) {
      var j :| k < j < |p| && SameInode(p[k], p[j]);
      assert SameInode(q[k], q[j]);
    }
    if IsHardLink(q, k) {
      var j :| k < j < |q| && SameInode(q[k], q[j]);
      if j < n {
        assert SameInode(p[k], p[j]);
      } else {
        var l := last[Inode64(files[n])];
        if l != k {
          assert SameInode(p[k], p[l]);
        }
      }
    }
    if Regular(files[n]) && Inode64(files[n]) != 0 && Inode64(files[n]) in last && last[Inode64(files[n])] == k {
      assert SameInode(q[k], q[n]);
    }
  }

  lemma {:induction false} NoLaterFile(files: seq<FileInfo>, n: nat)
    requires n < |files|
    ensures !IsHardLink(files[..n + 1], n)
  {
  }

  /** What the sizes are after n files. */
  ghost predicate Analyzed(files: seq<FileInfo>, n: nat, isLink: seq<bool>, sizes: seq<int>)
    requires n <= |files|
  {
    && |isLink| == |sizes| == |files|
    && (forall k :: 0 <= k < n ==> isLink[k] == IsHardLink(files[..n], k) && sizes[k] == PayloadSize(files[..n], k))
    && (forall k :: n <= k < |files| ==> !isLink[k] && sizes[k] == 0)
  }

  /** The effect of the loop body on the two arrays. */
  function Marked(isLink: seq<bool>, files: seq<FileInfo>, last: map<nat, nat>, n: nat): (r: seq<bool>)
    requires n < |files| == |isLink|
  {
    var f := files[n];
    if Regular(f) && Inode64(f) != 0 && Inode64(f) in last && last[Inode64(f)] < |isLink|
    then isLink[last[Inode64(f)] := true] else isLink
  }

  function WithSize(sizes: seq<int>, files: seq<FileInfo>, last: map<nat, nat>, n: nat): (r: seq<int>)
    requires n < |files| == |sizes|
  {
    var f := files[n];
    var s := if Regular(f) then sizes[n := SizeOf(f)]
             else if FileType(f) == S_ISLNK then sizes[n := |f.linkName|] else sizes;
    if Regular(f) && Inode64(f) != 0 && Inode64(f) in last && last[Inode64(f)] < |s|
    then s[last[Inode64(f)] := 0] else s
  }

  lemma {:induction false} AnalysisStep(files: seq<FileInfo>, n: nat, isLink: seq<bool>, sizes: seq<int>,
                                        last: map<nat, nat>)
    requires n < |files| && LastInodes(last, files, n) && Analyzed(files, n, isLink, sizes)
    ensures Analyzed(files, n + 1, Marked(isLink, files, last, n), WithSize(sizes, files, last, n))
  {
    hide Inode64, FileType, SizeOf, IsHardLink;
    var p, q := files[..n], files[..n + 1];
    assert forall j :: 0 <= j < n ==> p[j] == q[j] == files[j];
    assert q[n] == files[n];
    NoLaterFile(files, n);
    forall k | 0 <= k < n
      ensures IsHardLink(q, k) <==>
        IsHardLink(p, k) || (Regular(files[n]) && Inode64(files[n]) != 0
                             && Inode64(files[n]) in last && last[Inode64(files[n])] == k)
    {
      LinkStep(files, last, n, k);
    }
  }

  lemma {:induction false} LastInodesStep(files: seq<FileInfo>, n: nat, last: map<nat, nat>)
    requires n < |files| && LastInodes(last, files, n)
    ensures Regular(files[n]) ==> LastInodes(last[Inode64(files[n]) := n], files, n + 1)
    ensures !Regular(files[n]) ==> LastInodes(last, files, n + 1)
  {
    hide Inode64, FileType;
  }

  /** `names` maps the name of each of the first n files to the last one that has it. */
  ghost predicate LastNames(names: map<seq<byte>, nat>, files: seq<FileInfo>, n: nat)
    requires n <= |files|
  {
    && (forall s :: s in names ==> IsLastNamed(files[..n], s, names[s]))
    && (forall k :: 0 <= k < n ==> files[k].name in names)
  }

  lemma {:induction false} LastNamesStep(names: map<seq<byte>, nat>, files: seq<FileInfo>, n: nat)
    requires n < |files| && LastNames(names, files, n)
    ensures LastNames(names[files[n].name := n], files, n + 1)
  {
    var p, q, more := files[..n], files[..n + 1], names[files[n].name := n];
    forall s | s in more
      ensures IsLastNamed(q, s, more[s])
    {
      if s != files[n].name {
        assert IsLastNamed(p, s, names[s]);
        assert forall j :: 0 <= j < n ==> q[j] == p[j];
      }
    }
  }

  /** The switch in the loop of newPayloadReader. */
  method RecordFile(files: seq<FileInfo>, i: nat, isLink: array<bool>, fileSizes: array<int>, lastInodes: map<nat, nat>)
    returns (last: map<nat, nat>)
    requires i < |files| && isLink.Length == fileSizes.Length == |files| && LastInodes(lastInodes, files, i)
    requires Analyzed(files, i, isLink[..], fileSizes[..])
    modifies isLink, fileSizes
    ensures LastInodes(last, files, i + 1) && Analyzed(files, i + 1, isLink[..], fileSizes[..])
  {
    hide Inode64, FileType, SizeOf, Analyzed, LastInodes;
    ghost var links, sizes := isLink[..], fileSizes[..];
    AnalysisStep(files, i, links, sizes, lastInodes);
    LastInodesStep(files, i, lastInodes);
    InodeIsEarlier(files, i, lastInodes);
    last := lastInodes;
    var fileSt := files[i];
    if FileType(fileSt) == S_ISREG {
      fileSizes[i] := SizeOf(fileSt);
      var ino := Inode64(fileSt);
      if ino in lastInodes && ino != 0 {
        isLink[lastInodes[ino]] := true;
        fileSizes[lastInodes[ino]] := 0;
      }
      last := lastInodes[ino := i];
    } else if FileType(fileSt) == S_ISLNK {
      fileSizes[i] := |fileSt.linkName|;
    }
    assert isLink[..] == Marked(links, files, lastInodes, i);
    assert fileSizes[..] == WithSize(sizes, files, lastInodes, i);
  }

  lemma {:induction false} InodeIsEarlier(files: seq<FileInfo>, n: nat, last: map<nat, nat>)
    requires n < |files| && LastInodes(last, files, n)
    ensures Inode64(files[n]) in last ==> last[Inode64(files[n])] < n
  {
    hide Inode64, FileType;
  }

  /** The loop of newPayloadReader. */
  method AnalyzeFiles(files: seq<FileInfo>)
    returns (isLink: array<bool>, fileSizes: array<int>, fileMap: map<seq<byte>, nat>)
    ensures fresh(isLink) && fresh(fileSizes) && isLink.Length == fileSizes.Length == |files|
    ensures forall i :: 0 <= i < |files| ==>
      isLink[i] == IsHardLink(files, i) && fileSizes[i] == PayloadSize(files, i) && files[i].name in fileMap
    ensures forall s :: s in fileMap ==> IsLastNamed(files, s, fileMap[s])
  {
    hide Inode64, FileType, SizeOf, IsHardLink, PayloadSize, IsLastNamed;
    isLink := new bool[|files|](_ => false);
    fileSizes := new int[|files|](_ => 0);
    fileMap := map[];
    var lastInodes: map<nat, nat> := map[];
    var i := 0;
    while i < |files|
      invariant 0 <= i <= |files| && LastInodes(lastInodes, files, i) && LastNames(fileMap, files, i)
      invariant Analyzed(files, i, isLink[..], fileSizes[..])
      modifies isLink, fileSizes
    {
      hide LastInodes, LastNames, Analyzed;
      LastNamesStep(fileMap, files, i);
      fileMap := fileMap[files[i].name := i];
      lastInodes := RecordFile(files, i, isLink, fileSizes, lastInodes);
      i := i + 1;
    }
    AnalysisIsComplete(files, isLink[..], fileSizes[..]);
    assert forall k :: 0 <= k < |files| ==> isLink[k] == isLink[..][k] && fileSizes[k] == fileSizes[..][k];
    assert files[..|files|] == files;
  }

  // ---- link groups ---------------------------------------------------------

  /** The result of the analysis, in terms of all the files. */
  lemma {:induction false} AnalysisIsComplete(files: seq<FileInfo>, isLink: seq<bool>, sizes: seq<int>)
    requires Analyzed(files, |files|, isLink, sizes)
    ensures forall i :: 0 <= i < |files| ==> isLink[i] == IsHardLink(files, i) && sizes[i] == PayloadSize(files, i)
  {
    assert files[..|files|] == files;
  }

  /** The last file of a link group. */
  ghost function LastOfGroup(files: seq<FileInfo>, i: nat): (k: nat)
    requires i < |files| && Regular(files[i])
    ensures i <= k < |files| && SameInode(files[i], files[k])
    ensures forall j :: k < j < |files| ==> !SameInode(files[i], files[j])
    decreases |files| - i
  {
    if j :| i < j < |files| && SameInode(files[i], files[j]) then LastOfGroup(files, j) else i
  }

  /**
    Link groups: of the regular files that share a nonzero inode exactly one, the
    last, is not marked as a link; it keeps its size, and all others have none.
   */
  lemma {:induction false} OneContentPerGroup(files: seq<FileInfo>, i: nat)
    requires i < |files| && Regular(files[i]) && Inode64(files[i]) != 0
    ensures var k := LastOfGroup(files, i);
            && !IsHardLink(files, k) && PayloadSize(files, k) == SizeOf(files[k])
            && forall j :: 0 <= j < |files| && SameInode(files[i], files[j]) && j != k ==>
                 IsHardLink(files, j) && PayloadSize(files, j) == 0
  {
    hide LastOfGroup, FileType, Inode64, SizeOf;
    var k := LastOfGroup(files, i);
    forall j | 0 <= j < |files| && SameInode(files[i], files[j]) && j != k
      ensures IsHardLink(files, j)
    {
      assert j < k && SameInode(files[j], files[k]);
    }
  }

  // ---- what the analysis says of the attributes ----------------------------

  /** The type of a file is in the mode above its twelve permission bits: 8 for regular files, 10 for symbolic links. */
  lemma {:induction false} TypeOfMode(f: FileInfo)
    ensures Regular(f) <==> 0x8000 <= f.mode < 0x9000
    ensures FileType(f) == S_ISLNK <==> 0xA000 <= f.mode < 0xB000
  {
    assert f.mode == 4096 * (f.mode / 4096) + f.mode % 4096;
  }

  /** An inode is a pair of device and number, and absent when both are 0. */
  lemma {:induction false} InodeIsPair(f: FileInfo, g: FileInfo)
    ensures Inode64(f) == Inode64(g) <==> f.device == g.device && f.inode == g.inode
    ensures Inode64(f) == 0 <==> f.device == 0 && f.inode == 0
    ensures Inode64(f) < 0x1_0000_0000_0000_0000
  {
  }

  /** A regular file is a hard link if a later regular file has the same device and inode, and not both are 0. */
  lemma {:induction false} HardLinkIff(files: seq<FileInfo>, i: nat)
    requires i < |files|
    ensures var f := files[i];
            IsHardLink(files, i) <==>
              0x8000 <= f.mode < 0x9000 && !(f.device == 0 && f.inode == 0)
              && exists j :: i < j < |files| && 0x8000 <= files[j].mode < 0x9000
                             && files[j].device == f.device && files[j].inode == f.inode
  {
    hide FileType, Inode64, Regular;
    TypeOfMode(files[i]);
    forall j | i < j < |files|
      ensures SameInode(files[i], files[j]) <==>
        0x8000 <= files[i].mode < 0x9000 && 0x8000 <= files[j].mode < 0x9000
        && files[j].device == files[i].device && files[j].inode == files[i].inode
    {
      TypeOfMode(files[j]);
      InodeIsPair(files[i], files[j]);
    }
    InodeIsPair(files[i], files[i]);
  }

  /** The contents of a file in the payload, by its mode; sizes are converted to 64-bit signed numbers. */
  lemma {:induction false} PayloadSizeIs(files: seq<FileInfo>, i: nat)
    requires i < |files|
    ensures var f, n := files[i], PayloadSize(files, i);
            && (IsHardLink(files, i) ==> n == 0)
            && (0x8000 <= f.mode < 0x9000 && !IsHardLink(files, i) ==>
                 -0x8000_0000_0000_0000 <= n < 0x8000_0000_0000_0000
                 && (n == f.size || n == f.size - 0x1_0000_0000_0000_0000))
            && (0xA000 <= f.mode < 0xB000 ==> n == |f.linkName|)
            && (!(0x8000 <= f.mode < 0x9000) && !(0xA000 <= f.mode < 0xB000) ==> n == 0)
  {
    hide FileType, Inode64, IsHardLink, Regular;
    TypeOfMode(files[i]);
    HardLinkIff(files, i);
  }

  // ---- names ---------------------------------------------------------------

  /** The name in an archive stands for the name of a file: a dot in front of a slash is dropped. */
  predicate StandsFor(archived: seq<byte>, own: seq<byte>) {
    if [46, 47] <= archived then archived == [46] + own else archived == own
  }

  lemma {:induction false} LookupIs(archived: seq<byte>, own: seq<byte>)
    ensures StandsFor(archived, own) <==> own == LookupName(archived)
  {
    if |archived| > 1 {
      assert archived[..2] == [archived[0], archived[1]];
      assert archived == [archived[0]] + archived[1..];
      assert ([46] + own)[1..] == own;
    }
  }

  /** "./x" stands for "/x" only. */
  lemma {:induction false} DotSlash(x: seq<byte>, own: seq<byte>)
    ensures StandsFor([46, 47] + x, own) <==> own == [47] + x
  {
    assert [46, 47] + x == [46] + ([47] + x);
    assert ([46] + own)[1..] == own && ([46] + ([47] + x))[1..] == [47] + x;
    assert ([46, 47] + x)[..2] == [46, 47];
  }

  /** A member "./x" belongs to the last file named "/x", and any other name to the last file that has it. */
  lemma {:induction false} MembersByName(files: seq<FileInfo>, archived: seq<byte>, x: seq<byte>, i: nat)
    ensures IsFileOf(files, [46, 47] + x, i) <==> IsLastNamed(files, [47] + x, i)
    ensures !([46, 47] <= archived) ==> (IsFileOf(files, archived, i) <==> IsLastNamed(files, archived, i))
  {
    hide StandsFor;
    forall j | 0 <= j < |files|
      ensures StandsFor([46, 47] + x, files[j].name) <==> files[j].name == [47] + x
      ensures !([46, 47] <= archived) ==> (StandsFor(archived, files[j].name) <==> files[j].name == archived)
    {
      DotSlash(x, files[j].name);
      PlainName(archived, files[j].name);
    }
  }

  lemma {:induction false} PlainName(archived: seq<byte>, own: seq<byte>)
    ensures !([46, 47] <= archived) ==> (StandsFor(archived, own) <==> own == archived)
  {
  }

  lemma {:induction false} NamesAreLookedUp(files: seq<FileInfo>, archived: seq<byte>)
    ensures forall i: nat :: IsFileOf(files, archived, i) <==> IsLastNamed(files, LookupName(archived), i)
    ensures forall i :: 0 <= i < |files| ==>
      (StandsFor(archived, files[i].name) <==> files[i].name == LookupName(archived))
  {
    hide StandsFor, LookupName, IsFileOf, IsLastNamed;
    forall i: nat ensures IsFileOf(files, archived, i) <==> IsLastNamed(files, LookupName(archived), i) {
      LastNamedIs(files, archived, i);
    }
    forall i | 0 <= i < |files|
      ensures StandsFor(archived, files[i].name) <==> files[i].name == LookupName(archived)
    {
      LookupIs(archived, files[i].name);
    }
  }

  /** File i is the last one the name in an archive stands for. */
  ghost predicate IsFileOf(files: seq<FileInfo>, archived: seq<byte>, i: nat) {
    i < |files| && StandsFor(archived, files[i].name)
    && forall j :: i < j < |files| ==> !StandsFor(archived, files[j].name)
  }

  lemma {:induction false} LastNamedIs(files: seq<FileInfo>, archived: seq<byte>, i: nat)
    ensures IsFileOf(files, archived, i) <==> IsLastNamed(files, LookupName(archived), i)
  {
    hide StandsFor, LookupName;
    forall j | 0 <= j < |files|
      ensures StandsFor(archived, files[j].name) <==> files[j].name == LookupName(archived)
    {
      LookupIs(archived, files[j].name);
    }
  }

  // ---- the payload reader --------------------------------------------------

  /** A leading dot in front of a slash is dropped. */
  function LookupName(name: seq<byte>): (n: seq<byte>) {
    if |name| > 1 && name[0] == 46 && name[1] == 47 then name[1..] else name
  }

  class PayloadReader {
    const cr: Reader
    const files: seq<FileInfo>
    const fileMap: map<seq<byte>, nat>
    const isLink: array<bool>
    var index: nat

    ghost predicate Valid()
      reads this, cr, cr.stream, cr.stream.stream, cr.stream.stream.stream, cr.cur, isLink,
            if cr.cur != null then {cr.cur.payload} else {}
    {
      && cr.Valid() && isLink.Length == |files|
      && (forall i :: 0 <= i < |files| ==> isLink[i] == IsHardLink(files, i) && files[i].name in fileMap)
      && (forall s :: s in fileMap ==> IsLastNamed(files, s, fileMap[s]))
      && cr.stream.sizes.Some? && |cr.stream.sizes.value| == |files|
      && (forall i :: 0 <= i < |files| ==> cr.stream.sizes.value[i] == PayloadSize(files, i))
    }

    /** newPayloadReader */
    constructor (source: Source, files: seq<FileInfo>)
      requires source.Valid() && source.pos == 0
      ensures Valid() && this.files == files && index == 0
      ensures cr.stream.stream.stream == source && cr.stream.Position() == Cursor(0, 0) && cr.cur == null
    {
      hide IsHardLink, PayloadSize, IsLastNamed;
      var links, sizes, names := AnalyzeFiles(files);
      this.files := files;
      isLink := links;
      fileMap := names;
      index := 0;
      cr := new Reader(source, Some(sizes[..]));
    }

    /** The file a header belongs to: by its index, or the last one with its name. */
    ghost predicate Names(h: CpioHeader, i: nat)
      reads this
    {
      if h.stripped then i == h.index else IsFileOf(files, h.filename, i)
    }

    method Next() returns (f: Outcome<FileInfo>)
      requires Valid()
      modifies this, cr, cr.stream, cr.stream.stream, cr.stream.stream.stream
      ensures Valid()
      ensures var r := NextEntry(cr.stream.stream.stream.data, cr.stream.sizes, old(cr.stream.Position()));
              var h := ReaderResult(r.out);
              && cr.stream.Position() == r.cur
              && (h.IsFailure() ==> f == h.PropagateFailure() && index == old(index))
              && (h.Ok? && f.Ok? ==> index < |files| && f.value == files[index] && Names(h.value, index))
              && (h.Ok? ==>
                   && cr.cur != null && fresh(cr.cur) && fresh(cr.cur.payload)
                   && cr.cur.payload.Value() == Strm(r.out.value.start, 0, r.out.value.size, []))
              && (h.Ok? && h.value.stripped ==> f.Ok?)
              && (h.Ok? && f.IsFailure() ==>
                   && f == Err(UnknownFile) && index == old(index)
                   && forall i :: 0 <= i < |files| ==> !StandsFor(h.value.filename, files[i].name))
    {
      hide NextEntry, IsHardLink, PayloadSize, StandsFor, LookupName, IsFileOf;
      var hdr := cr.Next();
      if hdr.IsFailure() {
        return hdr.PropagateFailure();
      }
      if hdr.value.stripped {
        StrippedIndexInRange(cr.stream.stream.stream.data, cr.stream.sizes, old(cr.stream.Position()));
        index := hdr.value.index;
      } else {
        var name := LookupName(hdr.value.filename);
        NamesAreLookedUp(files, hdr.value.filename);
        if name !in fileMap {
          return Err(UnknownFile);
        }
        index := fileMap[name];
        assert IsLastNamed(files, name, index);
      }
      return Ok(files[index]);
    }

    /** IsLink: whether the current file is one whose contents come with a later file. */
    method IsLink() returns (r: Outcome<bool>)
      requires Valid()
      ensures r == if index < |files| then Ok(IsHardLink(files, index)) else Panic
    {
      if index >= isLink.Length {
        return Panic;
      }
      return Ok(isLink[index]);
    }
  }

  /** The index of a stripped entry that was read refers to a file. */
  lemma {:induction false} StrippedIndexInRange(data: seq<byte>, sizes: Sizes, cur: Cursor)
    requires cur.pos <= |data|
    ensures var r := NextEntry(data, sizes, cur);
            r.out.Ok? && r.out.value.header.stripped ==>
              sizes.Some? && 0 <= r.out.value.header.index < |sizes.value|
  {
    hide NumbersAt, Read16At, Pad;
  }

  // ---- a stripped payload is read in sync ----------------------------------

  /** The payload members for a list of file indices, each with contents of the size the analysis gives it. */
  ghost predicate LaidOut(ms: seq<Member>, files: seq<FileInfo>) {
    forall j :: 0 <= j < |ms| ==>
      && ms[j].Stripped? && ms[j].index < |files|
      && |ms[j].contents| == PayloadSize(files, ms[j].index)
  }

  /**
    A stripped archive laid out with the sizes of the analysis is read in sync:
    after any run each call of Next has named the next file of the archive, and
    its stream has delivered exactly as many bytes of that file's own contents as
    its reads have asked for; the contents of a hard link are empty.
   */
  lemma {:induction false} PayloadInSync(files: seq<FileInfo>, sizes: seq<int>, ms: seq<Member>, tail: seq<byte>,
                                         ops: seq<Op>)
    requires |sizes| == |files| && forall i :: 0 <= i < |files| ==> sizes[i] == PayloadSize(files, i)
    requires LaidOut(ms, files) && CountNext(ops) <= |ms|
    ensures var y := Run(EncodeAll(ms) + tail, Some(sizes), ops);
            && |y.log| == |y.streams| == CountNext(ops)
            && forall j :: 0 <= j < |y.log| ==>
                 && y.log[j].Ok? && y.log[j].value.header == StrippedHeader(ms[j].index)
                 && Delivered(y.streams[j], ms[j].contents, Asked(ops, j))
                 && (y.streams[j].curr >= y.streams[j].size ==> y.streams[j].delivered == ms[j].contents)
                 && (IsHardLink(files, ms[j].index) ==> y.streams[j].delivered == [])
  {
    hide Run, EncodeAll, Asked;
    assert AllEncodable(ms, Some(sizes));
    ArchiveRoundTrip(ms, tail, Some(sizes), ops);
  }

  /**
    Reading a stripped payload through, in any portions, names every file of the
    archive with exactly its own contents, and ends with EOF at the trailer.
   */
  lemma {:induction false} PayloadIsReadBack(files: seq<FileInfo>, sizes: seq<int>, ms: seq<Member>, trailer: Member,
                                             tail: seq<byte>, plan: seq<seq<Portion>>)
    requires |sizes| == |files| && forall i :: 0 <= i < |files| ==> sizes[i] == PayloadSize(files, i)
    requires LaidOut(ms, files) && IsTrailer(trailer) && Encodable(trailer, Some(sizes))
    requires |plan| == |ms| && forall j :: 0 <= j < |ms| ==> Total(plan[j]) >= |ms[j].contents|
    ensures var y := Run(EncodeAll(ms + [trailer]) + tail, Some(sizes), ReadThrough(plan) + [NextOp]);
            && |y.log| == |y.streams| == |ms| + 1 && ReaderResult(y.log[|ms|]) == Err(EOF)
            && forall j :: 0 <= j < |ms| ==>
                 && ReaderResult(y.log[j]) == Ok(StrippedHeader(ms[j].index))
                 && y.streams[j].delivered == ms[j].contents
                 && |y.streams[j].delivered| == PayloadSize(files, ms[j].index)
  {
    hide Run, EncodeAll, Total, ReadThrough, ReaderResult, PayloadSize;
    assert AllEncodable(ms + [trailer], Some(sizes));
    ArchiveIsReadBack(ms, trailer, tail, Some(sizes), plan);
  }

  // ---- reading a payload with the objects ----------------------------------

  /** File i is the one a member of the payload belongs to: by its index, or the last one with its name. */
  ghost predicate BelongsTo(m: Member, files: seq<FileInfo>, i: nat) {
    if m.Stripped? then i == m.index else IsFileOf(files, m.name, i)
  }

  lemma {:induction false} HeaderNames(m: Member)
    ensures HeaderOf(m).stripped == m.Stripped?
    ensures if m.Stripped? then HeaderOf(m).index == m.index else HeaderOf(m).filename == m.name
  {
  }

  /** Next and, unless it reports the trailer, the contents. */
  method ReadFile(pr: PayloadReader, n: nat, ghost all: seq<Member>, ghost tail: seq<byte>, ghost j: nat, ghost i: nat)
    returns (f: Outcome<FileInfo>, contents: seq<byte>)
    requires pr.Valid() && j < |all| && AtMember(pr.cr, all, tail, j) && n > 0
    requires IsTrailer(all[j]) || (i < |pr.files| && BelongsTo(all[j], pr.files, i))
    modifies pr, pr.cr, pr.cr.stream, pr.cr.stream.stream, pr.cr.stream.stream.stream
    ensures pr.Valid()
    ensures if IsTrailer(all[j]) then f == Err(EOF)
            else f == Ok(pr.files[i]) && contents == all[j].contents && AtMember(pr.cr, all, tail, j + 1)
  {
    hide NextEntry, Encode, EncodeAll, Encodable, HeaderOf, EntryOf, IsTrailer, IsHardLink, PayloadSize;
    var r := pr.cr;
    NextMember(r.stream.stream.stream.data, r.stream.sizes, r.stream.Position(), all, tail, j);
    HeaderNames(all[j]);
    f := pr.Next();
    if f.IsFailure() {
      return f, [];
    }
    contents := ReadContents(r, n);
  }

  /**
    Reading a payload through with the real objects, whatever the underlying
    reader delivers at a time: for every member the file it belongs to, with
    exactly the member's contents, and EOF at the trailer.
   */
  method ReadPayload(pr: PayloadReader, n: nat, ghost ms: seq<Member>, ghost trailer: Member, ghost tail: seq<byte>,
                     ghost indices: seq<nat>)
    returns (got: seq<(FileInfo, seq<byte>)>, end: Outcome<FileInfo>)
    requires pr.Valid() && pr.cr.stream.Position() == Cursor(0, 0) && n > 0
    requires pr.cr.stream.stream.stream.data == EncodeAll(ms + [trailer]) + tail
    requires AllEncodable(ms + [trailer], pr.cr.stream.sizes) && IsTrailer(trailer)
    requires |indices| == |ms| && forall j :: 0 <= j < |indices| ==> indices[j] < |pr.files|
    requires forall j :: 0 <= j < |ms| ==> !IsTrailer(ms[j]) && BelongsTo(ms[j], pr.files, indices[j])
    modifies pr, pr.cr, pr.cr.stream, pr.cr.stream.stream, pr.cr.stream.stream.stream
    ensures end == Err(EOF) && |got| == |ms|
    ensures forall j :: 0 <= j < |ms| ==> got[j] == (pr.files[indices[j]], ms[j].contents)
  {
    hide Encodable, EncodeAll, IsTrailer, BelongsTo, IsHardLink, PayloadSize;
    ghost var all, where := ms + [trailer], indices + [0];
    NothingEncoded(all);
    got := [];
    var contents;
    end, contents := ReadFile(pr, n, all, tail, 0, where[0]);
    while end.Ok?
      invariant pr.Valid() && |got| <= |ms|
      invariant forall j :: 0 <= j < |got| ==> got[j] == (pr.files[indices[j]], ms[j].contents)
      invariant if |got| == |ms| then end == Err(EOF)
                else end == Ok(pr.files[indices[|got|]]) && contents == ms[|got|].contents
                     && AtMember(pr.cr, all, tail, |got| + 1)
      decreases |ms| - |got|
    {
      got := got + [(end.value, contents)];
      end, contents := ReadFile(pr, n, all, tail, |got|, where[|got|]);
    }
  }
}
