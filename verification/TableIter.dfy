/**
 The table iterator (`internal/sstable/iter.go`): it walks the blocks of an open table
 one entry at a time, and seeks by index and restart points.
 */
module TableIter {
  import opened Bytes
  import opened Entries
  import opened Block
  import opened Table
  import opened TableReader

  /** `index[j].lastKey` lies between the entries up to block `j` and those after it. */
  ghost predicate Separates(index: seq<IndexRec>, bs: seq<seq<Entry>>, es: seq<Entry>, j: nat)
    requires j < |bs| && j < |index|
  {
    && (forall g :: 0 <= g < |FlattenTo(bs, j + 1)| && g < |es| ==> !Less(index[j].lastKey, es[g].key))
    && (forall g :: |FlattenTo(bs, j + 1)| <= g < |es| ==> Less(index[j].lastKey, es[g].key))
  }

  /** Block `i` of the file is the encoding of `b`. */
  ghost predicate Intact(r: Reader, env: Env, i: nat, b: seq<Entry>, restarts: nat)
    requires i < |r.index| && restarts > 0
  {
    Fits(b, restarts) && BlockAt(r.file, r.index[i], env.crc) == Some(Body(b, restarts))
  }

  /** Where block `i` lies in the whole list. */
  lemma BlockStarts(bs: seq<seq<Entry>>, i: nat)
    requires i < |bs|
    ensures var a, es := |FlattenTo(bs, i)|, FlattenTo(bs, |bs|);
            && a + |bs[i]| == |FlattenTo(bs, i + 1)| <= |es|
            && es[a..a + |bs[i]|] == bs[i]
            && forall j {:trigger bs[i][j]} :: 0 <= j < |bs[i]| ==> bs[i][j] == es[a + j]
  {
    BlockSlice(bs, i, |bs|);
    var a, es := |FlattenTo(bs, i)|, FlattenTo(bs, |bs|);
    assert forall j {:trigger bs[i][j]} :: 0 <= j < |bs[i]| ==> es[a..a + |bs[i]|][j] == es[a + j];
  }

  class Iterator {
    const r: Reader
    const env: Env
    var bi: int
    var blockIt: BlockIter?
    var err: bool

    ghost const bs: seq<seq<Entry>>    // the blocks as written, those that are damaged now as well
    ghost const restarts: nat
    ghost const es: seq<Entry>         // their entries
    ghost var pos: nat                 // the place in the current block
    ghost var at: nat                  // the place in `es`

    /** Block `i` cannot be read. */
    ghost predicate Unreadable(i: nat) {
      i < |r.index| && BlockAt(r.file, r.index[i], env.crc) == None
    }

    /**
     The blocks known hold `es`, each either intact or unreadable. They are all the blocks
     of the table, or the one after them is unreadable.
     */
    ghost predicate Serves() {
      && restarts > 0 && |bs| <= |r.index| && es == FlattenTo(bs, |bs|)
      && (forall i :: 0 <= i < |bs| ==> Unreadable(i) || Intact(r, env, i, bs[i], restarts))
      && (|bs| < |r.index| ==> Unreadable(|bs|))
    }

    /** The block where a walk from block `j` on stops: the first that is not empty or cannot be read. */
    ghost function StopBlock(j: nat): nat
      requires Serves()
      decreases |bs| - j
    {
      if j >= |bs| then |bs| else if Unreadable(j) || bs[j] != [] then j else StopBlock(j + 1)
    }

    ghost predicate Inv()
      reads this, blockIt
    {
      && Serves() && at <= |es|
      && (if err then 0 <= bi <= |bs| && Unreadable(bi) && at == |FlattenTo(bs, bi)|
          else if blockIt == null then at == |es| && |bs| == |r.index| && bi >= |bs|
          else InBlock())
    }

    ghost predicate InBlock()
      requires Serves()
      reads this, blockIt
    {
      && blockIt != null && 0 <= bi < |bs| && blockIt.Written()
      && blockIt.es == bs[bi] && blockIt.r == restarts
      && pos <= |bs[bi]| && (if pos < |bs[bi]| then blockIt.On(pos) else blockIt.Ended())
      && at == |FlattenTo(bs, bi)| + pos
    }

    predicate Valid()
      reads this, blockIt
    {
      !err && blockIt != null && blockIt.valid
    }

    function Current(): Entry
      requires Valid()
      reads this, blockIt
    {
      Entry(blockIt.key, blockIt.value, blockIt.seqno, blockIt.deleted)
    }

    /** The iterator shows `es[at]`, or is exhausted, or stands with an error before a block it cannot read. */
    ghost predicate Settled()
      reads this, blockIt
    {
      && Inv()
      && (if err then !Valid() else if at < |es| then Valid() && Current() == es[at] else !Valid())
    }

    constructor (r: Reader, env: Env, ghost bs: seq<seq<Entry>>, ghost restarts: nat)
      requires restarts > 0 && |bs| <= |r.index|
      requires forall i :: 0 <= i < |bs| ==>
        BlockAt(r.file, r.index[i], env.crc) == None || Intact(r, env, i, bs[i], restarts)
      requires |bs| < |r.index| ==> BlockAt(r.file, r.index[|bs|], env.crc) == None
      ensures Settled() && at == 0 && this.bs == bs && this.r == r && this.env == env && es == FlattenTo(bs, |bs|)
      ensures this.restarts == restarts && (err <==> Unreadable(StopBlock(0)))
      ensures blockIt != null ==> fresh(blockIt)
    {
      this.r := r;
      this.env := env;
      this.bs := bs;
      this.restarts := restarts;
      this.es := FlattenTo(bs, |bs|);
      bi, blockIt, err, pos, at := -1, null, false, 0, 0;
      new;
      NextBlock();
    }

    /** Moves to the first entry of the next block that has one, unless a block before cannot be read. */
    method NextBlock()
      requires Serves() && !err && -1 <= bi && at <= |es|
      requires if bi < |bs| then at == |FlattenTo(bs, bi + 1)| else at == |es| && |bs| == |r.index|
      modifies this
      ensures Settled() && at == old(at) && (err <==> Unreadable(StopBlock(old(bi) + 1)))
      ensures blockIt != null && blockIt != old(blockIt) ==> fresh(blockIt)
    {
      hide Layout, Widths64, Fits, BlockAt, Body, FlattenTo;
      bi := bi + 1;
      while bi < |r.index|
        invariant Serves() && !err && 0 <= bi && at == old(at) && StopBlock(old(bi) + 1) == StopBlock(bi)
        invariant if bi <= |bs| then at == |FlattenTo(bs, bi)| else at == |es| && |bs| == |r.index|
        invariant blockIt != null && blockIt != old(blockIt) ==> fresh(blockIt)
        decreases |r.index| - bi
      {
        var bit := Load(bi);
        if bit == null {
          err := true;
          return;
        }
        blockIt := bit;
        pos := 0;
        BlockStarts(bs, bi);
        if bit.valid {
          return;
        }
        bi := bi + 1;
      }
      blockIt := null;
    }

    /** Reads and parses block `i`; null when it is damaged. */
    method Load(i: nat) returns (bit: BlockIter?)
      requires Serves() && i <= |bs| && i < |r.index|
      ensures bit != null ==> fresh(bit)
      ensures bit == null <==> Unreadable(i)
      ensures bit != null ==>
        && i < |bs| && bit.Written() && bit.es == bs[i] && bit.r == restarts
        && (if bs[i] == [] then bit.Ended() else bit.On(0))
    {
      if i < |bs| && !Unreadable(i) {
        ParseBody(bs[i], restarts);
      }
      var block := ReadBlock(r.file, r.index[i], env.crc);
      if block.None? {
        return null;
      }
      var p := ParseRestarts(block.value);
      if p.None? {
        return null;
      }
      bit := new BlockIter(bs[i], restarts, p.value.0, p.value.1);
    }

    /** One entry further; with an error exactly if the walk meets a block that cannot be read. */
    method Next()
      requires Inv()
      modifies this, blockIt
      ensures Settled()
      ensures at == if old(Valid()) then old(at) + 1 else old(at)
      ensures err <==> old(err) || (old(LeavesBlock()) && Unreadable(StopBlock(old(bi) + 1)))
      ensures blockIt != null && blockIt != old(blockIt) ==> fresh(blockIt)
    {
      hide Layout, Widths64, Fits, BlockAt, Body, FlattenTo, StopBlock;
      if err {
        return;
      }
      if blockIt != null {
        ghost var n := |bs[bi]|;
        BlockStarts(bs, bi);
        ghost var next := if pos < n then pos + 1 else n;
        blockIt.Ready(pos);
        blockIt.Next(next);
        at, pos := |FlattenTo(bs, bi)| + next, next;
        if blockIt.valid {
          return;
        }
      }
      NextBlock();
    }

    /** The current block has no entry behind the current one. */
    ghost predicate LeavesBlock()
      requires Inv()
      reads this, blockIt
    {
      !err && (blockIt == null || pos + 1 >= |bs[bi]|)
    }

    /**
     Moves to the first entry whose key is at least `target`. The error is set exactly when
     the block the index picks cannot be read, or the one moved on to from its end.
     */
    method Seek(target: Data) returns (ghost picked: nat)
      requires Serves() && Sorted(es) && |bs| == |r.index|
      requires forall j :: 0 <= j < |bs| ==> Separates(r.index, bs, es, j)
      modifies this, blockIt
      ensures picked <= |bs| && (picked > 0 ==> Less(r.index[picked - 1].lastKey, target))
      ensures picked < |bs| ==> !Less(r.index[picked].lastKey, target)
      ensures Settled() && (!err ==> at == LowerBound(es, target))
      ensures err <==> Unreadable(SeekEnds(picked, target))
      ensures blockIt != null && blockIt != old(blockIt) ==> fresh(blockIt)
    {
      hide Layout, Widths64, Fits, BlockAt, Body, FlattenTo, Separates, LowerBound, Sorted;
      err := false;
      var i := SearchIndex(r.index, target);
      picked := i;
      SoughtBlock(target, i);
      if i >= |r.index| {
        bi := |r.index|;
        blockIt := null;
        at := |es|;
        return;
      }
      SeekBlock(target, i);
    }

    /** The block where a search from block `i` on ends. */
    ghost function SeekEnds(i: nat, target: Data): nat
      requires Serves()
    {
      if i < |bs| && !Unreadable(i) && LowerBound(bs[i], target) == |bs[i]| then StopBlock(i + 1) else i
    }

    /** Searches one block; when the target lies behind it, the next block begins the rest. */
    method SeekBlock(target: Data, i: nat)
      requires Serves() && !err && i < |bs| && Sorted(bs[i])
      modifies this, blockIt
      ensures Settled() && (!err ==> at == |FlattenTo(bs, i)| + LowerBound(bs[i], target))
      ensures err <==> Unreadable(SeekEnds(i, target))
      ensures blockIt != null && blockIt != old(blockIt) ==> fresh(blockIt)
    {
      hide Layout, Widths64, Fits, BlockAt, Body, FlattenTo, LowerBound, Sorted, LowerBoundFrom, StopBlock;
      BlockStarts(bs, i);
      bi := i;
      var bit := Load(i);
      if bit == null {
        err := true;
        at := |FlattenTo(bs, i)|;
        return;
      }
      bit.Seek(target);
      blockIt := bit;
      pos := LowerBound(bs[i], target);
      at := |FlattenTo(bs, i)| + pos;
      if !bit.valid {
        Next();
      }
    }

    /** Where the sought entry lies, given the block the index search picks. */
    lemma SoughtBlock(target: Data, i: nat)
      requires Serves() && Sorted(es) && |bs| == |r.index| && i <= |bs|
      requires forall j :: 0 <= j < |bs| ==> Separates(r.index, bs, es, j)
      requires i > 0 ==> Less(r.index[i - 1].lastKey, target)
      requires i < |bs| ==> !Less(r.index[i].lastKey, target)
      ensures i == |bs| ==> LowerBound(es, target) == |es|
      ensures i < |bs| ==>
        && Sorted(bs[i]) && LowerBound(es, target) == |FlattenTo(bs, i)| + LowerBound(bs[i], target)
    {
      hide Intact, Unreadable, Sorted, LowerBound, Separates, Less;
      if i > 0 {
        BlockStarts(bs, i - 1);
        PassedBlocks(target, i - 1);
      }
      if i < |bs| {
        BlockStarts(bs, i);
        StopsAt(target, i);
        LowerBoundSlice(es, |FlattenTo(bs, i)|, |FlattenTo(bs, i + 1)|, target);
      }
    }

    lemma PassedBlocks(target: Data, j: nat)
      requires Sorted(es) && j < |bs| && j < |r.index| && Separates(r.index, bs, es, j)
      requires |FlattenTo(bs, j + 1)| <= |es| && Less(r.index[j].lastKey, target)
      ensures LowerBound(es, target) >= |FlattenTo(bs, j + 1)|
    {
      var n := LowerBound(es, target);
      if n < |FlattenTo(bs, j + 1)| {
        assert !Less(r.index[j].lastKey, es[n].key);
        NotLessTransitive(r.index[j].lastKey, es[n].key, target);
      }
    }

    lemma StopsAt(target: Data, j: nat)
      requires Sorted(es) && j < |bs| && j < |r.index| && Separates(r.index, bs, es, j)
      requires |FlattenTo(bs, j + 1)| <= |es| && !Less(r.index[j].lastKey, target)
      ensures LowerBound(es, target) <= |FlattenTo(bs, j + 1)|
    {
      var n := |FlattenTo(bs, j + 1)|;
      if LowerBound(es, target) > n {
        assert Less(es[n].key, target) && Less(r.index[j].lastKey, es[n].key);
        LessTransitive(r.index[j].lastKey, es[n].key, target);
      }
    }
  }

  // ---------- walking a written table ----------

  /** A written table satisfies everything the iterator asks of one. */
  lemma WrittenServes(es: seq<Entry>, o: Options, env: Env)
    requires Representable(es, o, env)
    ensures var r, bs := ReaderOf(es, o, env), Blocks(es, o);
            && |bs| == |r.index| && es == FlattenTo(bs, |bs|)
            && forall i :: 0 <= i < |bs| ==>
                 Fits(bs[i], o.restarts) && BlockAt(r.file, r.index[i], env.crc) == Some(Body(bs[i], o.restarts))
  {
    hide BlockAt, Body, Fits, FlattenTo, Index, TableBytes, Blocks;
    var bs := Blocks(es, o);
    BlocksKeep(es, o);
    forall i | 0 <= i < |bs|
      ensures BlockAt(ReaderOf(es, o, env).file, ReaderOf(es, o, env).index[i], env.crc)
        == Some(Body(bs[i], o.restarts))
    {
      BlockWritten(es, o, env, i);
    }
  }

  /** The last keys the writer records separate the blocks. */
  lemma WrittenSeparates(es: seq<Entry>, o: Options, env: Env, j: nat)
    requires Representable(es, o, env) && Sorted(es) && j < |Blocks(es, o)|
    ensures j < |ReaderOf(es, o, env).index| && Separates(ReaderOf(es, o, env).index, Blocks(es, o), es, j)
  {
    hide FlattenTo, Blocks, TableBytes, BytesTo, BlockBytes, FilterTo, Fits;
    BlocksKeep(es, o);
    LastSeparates(es, Blocks(es, o), ReaderOf(es, o, env).index, j);
  }

  lemma LastSeparates(es: seq<Entry>, bs: seq<seq<Entry>>, index: seq<IndexRec>, j: nat)
    requires Sorted(es) && es == FlattenTo(bs, |bs|) && j < |bs| == |index|
    requires bs[j] != [] && index[j].lastKey == bs[j][|bs[j]| - 1].key
    ensures Separates(index, bs, es, j)
  {
    LastOf(bs, j);
    var c := |FlattenTo(bs, j + 1)|;
    forall g | 0 <= g < c && g < |es|
      ensures !Less(es[c - 1].key, es[g].key)
    {
      LessTrichotomy(es[g].key, es[c - 1].key);
    }
  }

  /**
   The loop of a full scan, which does not look at the iterator's error: it yields the
   entries of the blocks before the first that cannot be read, and then ends.
   */
  method Drain(r: Reader, env: Env, ghost bs: seq<seq<Entry>>, ghost restarts: nat) returns (out: seq<Entry>)
    requires restarts > 0 && |bs| <= |r.index|
    requires forall i :: 0 <= i < |bs| ==>
      Fits(bs[i], restarts) && BlockAt(r.file, r.index[i], env.crc) == Some(Body(bs[i], restarts))
    requires |bs| < |r.index| ==> BlockAt(r.file, r.index[|bs|], env.crc) == None
    ensures out == FlattenTo(bs, |bs|)
  {
    hide BlockAt, Body, Fits, FlattenTo;
    var it := new Iterator(r, env, bs, restarts);
    out := [];
    while it.Valid()
      invariant it.Settled() && fresh(it) && (it.blockIt != null ==> fresh(it.blockIt))
      invariant out == it.es[..it.at]
      decreases |it.es| - it.at
    {
      out := out + [it.Current()];
      it.Next();
    }
  }

  /** A full scan yields the entries of a written table in order, and none of a closed one. */
  method ReadAll(r: Reader, env: Env, ghost es: seq<Entry>, ghost o: Options) returns (out: seq<Entry>)
    requires Representable(es, o, env) && (r == ReaderOf(es, o, env) || r.file.None?)
    ensures out == if r.file.Some? then es else []
  {
    hide Body, Fits, FlattenTo, Blocks, ReaderOf, TableBytes;
    if r == ReaderOf(es, o, env) {
      WrittenServes(es, o, env);
      WrittenOpen(es, o, env);
    }
    assert FlattenTo([], 0) == [] by {
      NothingFlat();
    }
    out := Drain(r, env, if r.file.Some? then Blocks(es, o) else [], o.restarts);
  }

  lemma WrittenOpen(es: seq<Entry>, o: Options, env: Env)
    requires o.restarts > 0
    ensures ReaderOf(es, o, env).file.Some?
  {
  }

  lemma NothingFlat()
    ensures FlattenTo([], 0) == []
  {
  }

  /** The file of a written table, some blocks of which can perhaps no longer be read. */
  ghost predicate PerhapsDamaged(r: Reader, es: seq<Entry>, o: Options, env: Env)
    requires o.restarts > 0
  {
    var w := ReaderOf(es, o, env);
    && r.index == w.index
    && forall j {:trigger r.index[j]} :: 0 <= j < |r.index| ==>
         BlockAt(r.file, r.index[j], env.crc) == None
         || BlockAt(r.file, r.index[j], env.crc) == BlockAt(w.file, w.index[j], env.crc)
  }

  /** The block among the first `m` that holds place `n` of the list. */
  ghost function Holder(bs: seq<seq<Entry>>, m: nat, n: nat): (j: nat)
    requires m <= |bs| && n < |FlattenTo(bs, m)|
    ensures j < m && |FlattenTo(bs, j)| <= n < |FlattenTo(bs, j + 1)|
  {
    if n < |FlattenTo(bs, m - 1)| then Holder(bs, m - 1, n) else m - 1
  }

  lemma {:induction false} FlattenGrows(bs: seq<seq<Entry>>, i: nat, j: nat)
    requires i <= j <= |bs|
    ensures |FlattenTo(bs, i)| <= |FlattenTo(bs, j)|
    decreases j
  {
    if i < j {
      FlattenGrows(bs, i, j - 1);
    }
  }

  lemma HolderUnique(bs: seq<seq<Entry>>, n: nat, i: nat)
    requires i < |bs| && |FlattenTo(bs, i)| <= n < |FlattenTo(bs, i + 1)|
    ensures n < |FlattenTo(bs, |bs|)| && Holder(bs, |bs|, n) == i
  {
    FlattenGrows(bs, i + 1, |bs|);
    var j := Holder(bs, |bs|, n);
    if j < i {
      FlattenGrows(bs, j + 1, i);
    } else if j > i {
      FlattenGrows(bs, i + 1, j);
    }
  }

  /** In a written table the block the index picks is the one that holds the sought entry. */
  lemma PickedHolds(es: seq<Entry>, bs: seq<seq<Entry>>, index: seq<IndexRec>, target: Data, i: nat)
    requires Sorted(es) && es == FlattenTo(bs, |bs|) && |bs| == |index| && i < |bs|
    requires bs[i] != [] && index[i].lastKey == bs[i][|bs[i]| - 1].key && !Less(index[i].lastKey, target)
    requires Sorted(bs[i]) && LowerBound(es, target) == |FlattenTo(bs, i)| + LowerBound(bs[i], target)
    ensures LowerBound(bs[i], target) < |bs[i]| && LowerBound(es, target) < |es|
    ensures Holder(bs, |bs|, LowerBound(es, target)) == i
  {
    hide LowerBoundFrom, Sorted;
    LastOf(bs, i);
    var last := bs[i][|bs[i]| - 1];
    assert !Less(last.key, target);
    HolderUnique(bs, LowerBound(es, target), i);
  }

  /**
   Iterator.Seek on a table written from `es`, perhaps damaged since: it shows the first
   entry at or above `target`, unless the block that holds this entry cannot be read.
   */
  method SeekIn(r: Reader, env: Env, target: Data, ghost es: seq<Entry>, ghost o: Options)
    returns (found: Option<Entry>, err: bool)
    requires Representable(es, o, env) && Sorted(es) && PerhapsDamaged(r, es, o, env)
    ensures es == FlattenTo(Blocks(es, o), |Blocks(es, o)|) && |r.index| == |Blocks(es, o)|
    ensures var n := LowerBound(es, target);
            if n == |es| then found == None && !err
            else
              && (err <==> BlockAt(r.file, r.index[Holder(Blocks(es, o), |Blocks(es, o)|, n)], env.crc) == None)
              && found == if err then None else Some(es[n])
  {
    hide BlockAt, Body, Fits, FlattenTo, Blocks, TableBytes, Separates, Index, LowerBound, Sorted;
    ghost var bs := Blocks(es, o);
    WrittenServes(es, o, env);
    assert |bs| == |r.index|;
    forall j: nat | j < |bs|
      ensures Separates(r.index, bs, es, j)
      ensures BlockAt(r.file, r.index[j], env.crc) == None || Intact(r, env, j, bs[j], o.restarts)
    {
      WrittenSeparates(es, o, env, j);
    }
    var it := new Iterator(r, env, bs, o.restarts);
    ghost var picked := it.Seek(target);
    if picked < |bs| {
      WrittenPick(es, o, env, picked);
      it.SoughtBlock(target, picked);
      PickedHolds(es, bs, r.index, target, picked);
    } else {
      it.SoughtBlock(target, picked);
    }
    return if it.Valid() then Some(it.Current()) else None, it.err;
  }

  lemma WrittenPick(es: seq<Entry>, o: Options, env: Env, i: nat)
    requires Representable(es, o, env) && i < |Blocks(es, o)|
    ensures var index, b := ReaderOf(es, o, env).index, Blocks(es, o)[i];
            b != [] && i < |index| && index[i].lastKey == b[|b| - 1].key
  {
    hide FlattenTo, Blocks, TableBytes, BytesTo, BlockBytes, FilterTo, Fits;
    BlocksKeep(es, o);
  }
}
