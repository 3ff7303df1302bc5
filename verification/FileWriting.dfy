/** The positional file writer and the order-independence of what it assembles. */
module FileWriting {
  import opened Common

  datatype Path = Path(name: string)

  // ---------------------------------------------------------------- file contents

  function Zeros(n: nat): Bytes {
    seq(n, _ => 0)
  }

  /** `ftruncate`: cut, or extend with zeros. */
  function Resize(content: Bytes, size: nat): (r: Bytes)
    ensures |r| == size
    ensures forall i :: 0 <= i < size ==> r[i] == if i < |content| then content[i] else 0
  {
    if size <= |content| then content[..size] else content + Zeros(size - |content|)
  }

  /** `pwrite`: overwrite at `offset`, zero-filling any gap; nothing for no data. */
  function Overwrite(content: Bytes, offset: nat, data: Bytes): (r: Bytes)
    ensures data != [] ==> |r| == Max(|content|, offset + |data|)
    ensures forall i :: 0 <= i < |r| ==>
              r[i] == if offset <= i < offset + |data| then data[i - offset]
                      else if i < |content| then content[i] else 0
  {
    if data == [] then content
    else
      var base := Resize(content, Max(|content|, offset + |data|));
      base[..offset] + data + base[offset + |data|..]
  }

  datatype WriteOp = WriteOp(offset: nat, data: Bytes)

  /** The content after a log of writes, oldest first. */
  function Replay(content: Bytes, log: seq<WriteOp>): Bytes {
    if log == [] then content
    else Overwrite(Replay(content, log[..|log| - 1]), log[|log| - 1].offset, log[|log| - 1].data)
  }

  /** The write puts down exactly what `target` has there. */
  predicate Agrees(w: WriteOp, target: Bytes) {
    w.data == [] || (w.offset + |w.data| <= |target| && target[w.offset..w.offset + |w.data|] == w.data)
  }

  predicate Covers(w: WriteOp, i: nat) {
    w.offset <= i < w.offset + |w.data|
  }

  predicate Covered(log: seq<WriteOp>, i: nat) {
    exists w :: w in log && Covers(w, i)
  }

  /** Writes that agree with a target and cover it leave the target, in whatever order they came, however often
      they were repeated and whatever the file held before. */
  lemma AgreeingWritesAssemble(content: Bytes, log: seq<WriteOp>, target: Bytes)
    requires forall w | w in log :: Agrees(w, target)
    requires forall i: nat :: i < |target| ==> Covered(log, i)
    ensures Resize(Replay(content, log), |target|) == target
  {
    var r := Replay(content, log);
    forall i: nat | i < |target| ensures i < |r| && r[i] == target[i] {
      assert Covered(log, i);
      var w :| w in log && Covers(w, i);
      CoveredByteSettles(content, log, target, w, i);
    }
  }

  lemma {:induction false} CoveredByteSettles(content: Bytes, log: seq<WriteOp>, target: Bytes, w: WriteOp, i: nat)
    requires forall v | v in log :: Agrees(v, target)
    requires w in log && Covers(w, i)
    ensures i < |target|
    ensures i < |Replay(content, log)| && Replay(content, log)[i] == target[i]
  {
    var last := log[|log| - 1];
    assert Agrees(last, target);
    assert log == log[..|log| - 1] + [last];
    if Covers(last, i) {
      assert last.data[i - last.offset] == target[last.offset..last.offset + |last.data|][i - last.offset];
    } else {
      assert w in log[..|log| - 1];
      CoveredByteSettles(content, log[..|log| - 1], target, w, i);
    }
  }

  // ---------------------------------------------------------------- parts of one file

  function Concat(parts: seq<Bytes>): Bytes {
    if parts == [] then [] else parts[0] + Concat(parts[1..])
  }

  /** Where part `k` starts in the file. */
  function PartStart(parts: seq<Bytes>, k: nat): nat
    requires k <= |parts|
  {
    |Concat(parts[..k])|
  }

  function PartWrite(parts: seq<Bytes>, k: nat): WriteOp
    requires k < |parts|
  {
    WriteOp(PartStart(parts, k), parts[k])
  }

  lemma {:induction false} ConcatAppend(a: seq<Bytes>, b: seq<Bytes>)
    ensures Concat(a + b) == Concat(a) + Concat(b)
  {
    if a == [] {
      assert a + b == b;
    } else {
      assert (a + b)[1..] == a[1..] + b;
      ConcatAppend(a[1..], b);
    }
  }

  lemma ConcatSplit(parts: seq<Bytes>, k: nat)
    requires k < |parts|
    ensures Concat(parts) == Concat(parts[..k]) + (parts[k] + Concat(parts[k + 1..]))
  {
    assert parts == parts[..k] + parts[k..];
    ConcatAppend(parts[..k], parts[k..]);
    assert parts[k..][1..] == parts[k + 1..];
  }

  lemma PartAgrees(parts: seq<Bytes>, k: nat)
    requires k < |parts|
    ensures Agrees(PartWrite(parts, k), Concat(parts))
  {
    ConcatSplit(parts, k);
    MiddleSlice(Concat(parts[..k]), parts[k], Concat(parts[k + 1..]));
  }

  lemma MiddleSlice(a: Bytes, b: Bytes, c: Bytes)
    ensures (a + (b + c))[|a|..|a| + |b|] == b
  {
  }

  lemma {:induction false} SomePartCovers(parts: seq<Bytes>, i: nat) returns (k: nat)
    requires i < |Concat(parts)|
    ensures k < |parts| && Covers(PartWrite(parts, k), i)
  {
    var front := parts[..|parts| - 1];
    assert parts == front + [parts[|parts| - 1]];
    ConcatAppend(front, [parts[|parts| - 1]]);
    assert Concat([parts[|parts| - 1]]) == parts[|parts| - 1];
    if i < |Concat(front)| {
      k := SomePartCovers(front, i);
      assert front[..k] == parts[..k];
    } else {
      k := |parts| - 1;
    }
  }

  /** Each part written at its own start, in any order with repetitions, and every part at least once: after the final
      truncation the file is the parts in order. */
  lemma PartsAssemble(content: Bytes, parts: seq<Bytes>, order: seq<nat>, log: seq<WriteOp>)
    requires |log| == |order|
    requires forall j :: 0 <= j < |order| ==> order[j] < |parts| && log[j] == PartWrite(parts, order[j])
    requires forall k: nat :: k < |parts| ==> k in order
    ensures Resize(Replay(content, log), |Concat(parts)|) == Concat(parts)
  {
    var target := Concat(parts);
    forall w | w in log ensures Agrees(w, target) {
      var j :| 0 <= j < |log| && log[j] == w;
      PartAgrees(parts, order[j]);
    }
    forall i: nat | i < |target| ensures Covered(log, i) {
      var k := SomePartCovers(parts, i);
      assert k in order;
      var j :| 0 <= j < |order| && order[j] == k;
      assert log[j] in log && Covers(log[j], i);
    }
    AgreeingWritesAssemble(content, log, target);
  }

  // ---------------------------------------------------------------- the writer object

  datatype IOError = OpenFailed | NegativeOffset | NegativeSize

  /** `disk` is the file system; `handles` are the files this writer has open. */
  class FileWriter {
    var disk: map<Path, Bytes>
    var handles: set<Path>
    const openable: Path -> bool

    ghost predicate Valid()
      reads this
    {
      handles <= disk.Keys
    }

    constructor (disk: map<Path, Bytes>, openable: Path -> bool)
      ensures Valid() && this.disk == disk && handles == {} && this.openable == openable
    {
      this.disk := disk;
      handles := {};
      this.openable := openable;
    }

    /** What a file holds, an absent one being empty. */
    ghost function Content(path: Path): Bytes
      reads this
    {
      if path in disk then disk[path] else []
    }

    /** Opens without truncating: the content a file already has stays. */
    method GetOrCreateFile(path: Path) returns (err: Option<IOError>)
      requires Valid()
      modifies this
      ensures Valid()
      ensures err == if path in old(handles) || openable(path) then None else Some(OpenFailed)
      ensures err.None? ==> path in handles && handles == old(handles) + {path}
      ensures err.None? ==> disk == old(disk)[path := old(Content(path))]
      ensures err.Some? ==> disk == old(disk) && handles == old(handles)
    {
      if path in handles {
        return None;
      }
      if !openable(path) {
        return Some(OpenFailed);
      }
      if path !in disk {
        disk := disk[path := []];
      }
      handles := handles + {path};
      return None;
    }

    method WriteAt(path: Path, data: Bytes, offset: int) returns (err: Option<IOError>)
      requires Valid()
      modifies this
      ensures Valid()
      ensures err == if path !in old(handles) && !openable(path) then Some(OpenFailed)
                     else if offset < 0 then Some(NegativeOffset) else None
      ensures err.None? ==> disk == old(disk)[path := Overwrite(old(Content(path)), offset, data)]
      ensures err.None? ==> handles == old(handles) + {path}
      ensures err == Some(OpenFailed) ==> disk == old(disk) && handles == old(handles)
      ensures err == Some(NegativeOffset) ==>
                disk == old(disk)[path := old(Content(path))] && handles == old(handles) + {path}
      ensures forall other :: other != path && other in old(disk) ==> other in disk && disk[other] == old(disk[other])
      ensures err.Some? ==> Content(path) == old(Content(path))
    {
      err := GetOrCreateFile(path);
      if err.Some? {
        return;
      }
      if offset < 0 {
        return Some(NegativeOffset);
      }
      disk := disk[path := Overwrite(disk[path], offset, data)];
    }

    method PreAllocate(path: Path, size: int) returns (err: Option<IOError>)
      requires Valid()
      modifies this
      ensures Valid()
      ensures err == if path !in old(handles) && !openable(path) then Some(OpenFailed)
                     else if size < 0 then Some(NegativeSize) else None
      ensures err.None? ==> disk == old(disk)[path := Resize(old(Content(path)), size)]
      ensures err.None? ==> handles == old(handles) + {path}
      ensures err == Some(OpenFailed) ==> disk == old(disk) && handles == old(handles)
      ensures err == Some(NegativeSize) ==>
                disk == old(disk)[path := old(Content(path))] && handles == old(handles) + {path}
      ensures forall other :: other != path && other in old(disk) ==> other in disk && disk[other] == old(disk[other])
      ensures err.Some? ==> Content(path) == old(Content(path))
    {
      err := GetOrCreateFile(path);
      if err.Some? {
        return;
      }
      if size < 0 {
        return Some(NegativeSize);
      }
      disk := disk[path := Resize(disk[path], size)];
    }

    /** Truncates to a positive final size and forgets the handle; nothing for a file that is not open. */
    method CloseFile(path: Path, finalSize: int)
      requires Valid()
      modifies this
      ensures Valid()
      ensures handles == old(handles) - {path}
      ensures disk == if path in old(handles) && finalSize > 0
                      then old(disk)[path := Resize(old(disk)[path], finalSize)] else old(disk)
    {
      if path !in handles {
        return;
      }
      handles := handles - {path};
      if finalSize > 0 {
        disk := disk[path := Resize(disk[path], finalSize)];
      }
    }
  }
}
