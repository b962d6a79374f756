/** What the images of a medium show, and which of them can be opened. */
module TsImages {
  import opened Bytes
  import opened Sectors
  import opened TsModel
  import opened TsHistory
  import opened TsLayout
  import opened TsRead
  import opened TsStates

  /** The image shows one of the logged states. */
  predicate TsShows(img: seq<byte>, log: seq<seq<TSec>>, size: nat) {
    exists p :: 0 <= p < |log| && TsAt(img, log[p], size)
  }

  predicate AllTsShow(history: seq<seq<byte>>, log: seq<seq<TSec>>, size: nat) {
    forall h :: 0 <= h < |history| ==> TsShows(history[h], log, size)
  }

  lemma TsShowsMore(history: seq<seq<byte>>, log: seq<seq<TSec>>, size: nat, img: seq<byte>, secs: seq<TSec>)
    requires AllTsShow(history, log, size) && TsAt(img, secs, size)
    ensures AllTsShow(history + [img], log + [secs], size)
  {
    hide TsAt;
    forall h | 0 <= h < |history + [img]| ensures TsShows((history + [img])[h], log + [secs], size) {
      if h < |history| {
        assert TsShows(history[h], log, size);
        var p :| 0 <= p < |log| && TsAt(history[h], log[p], size);
        assert (log + [secs])[p] == log[p];
      } else {
        assert (log + [secs])[|log|] == secs;
      }
    }
  }

  lemma SparesEach(history: seq<seq<byte>>, log: seq<seq<TSec>>, size: nat, f: seq<TSec>, i: nat)
    requires AllTsShow(history, log, size) && |log| > 0 && LogSpares([f], log, f, i)
    ensures EachSpares(history, size, f, i)
  {
    hide TsAt, Spares;
    SparesSelf(f, i);
    forall h | 0 <= h < |history| ensures ShowsSpared(history[h], size, f, i) {
      assert TsShows(history[h], log, size);
      var p :| 0 <= p < |log| && TsAt(history[h], log[p], size);
      assert Spares(f, log[p], i);
    }
  }

  /** Sectors that have a header are in order, and torn records in them are such as the engine leaves. */
  predicate Sane(secs: seq<TSec>, size: nat, maxLen: nat) {
    forall i :: 0 <= i < |secs| ==> secs[i].TSec? ==> WfSec(secs[i], size, maxLen) && Accounted(secs[i], size, maxLen)
  }

  lemma SaneAt(secs: seq<TSec>, size: nat, maxLen: nat, i: nat)
    requires Sane(secs, size, maxLen) && i < |secs|
    ensures Accounted(secs[i], size, maxLen)
  {
    hide WfSec;
  }

  /** The current sector, if it is in use, holds a record. */
  predicate Settled(t: Ts) {
    t.cur < |t.secs| && (InStore(t.secs[t.cur], Using) ==> t.secs[t.cur].recs != [])
  }

  /** `t` is a log with rollover on that the sectors of `ts` hold, and its current sector is not full. */
  ghost predicate Reopens(t: Ts, ts: Ts) {
    && WfTs(t) && t == ts.(cur := t.cur, oldest := t.oldest, lastTime := t.lastTime)
    && t.cur < |t.secs| && !InStore(t.secs[t.cur], Full)
  }

  /** The medium holds the sectors `secs`, in a geometry for which the engine's arithmetic stays within 32
      bits and a fresh sector has room for the longest record; if the sectors are in order, they make the log `t`. */
  ghost predicate OnTsMedium(mem: seq<byte>, secSize: u32, maxSize: u32, maxLen: u32, secs: seq<TSec>, t: Ts) {
    && 64 <= secSize && secSize % TS_IDX == 0 && maxLen + 48 <= secSize && maxSize + secSize < 0x1_0000_0000
    && 2 <= |secs| && maxSize == Base(|secs|, secSize)
    && TsAt(mem, secs, secSize)
    && Sane(secs, secSize, maxLen)
    && (ScanAll(secs).failed || Reopens(t, Ts(secSize, maxLen, true, secs, 0, 0, 0)))
  }

  lemma CleanAccounted(ts: Ts, size: nat, maxLen: nat)
    requires ts.cur < |ts.secs| && ts.secs[ts.cur] == FreshSec
    ensures Accounted(ts.secs[ts.cur], size, maxLen) && Settled(ts) && !InStore(ts.secs[ts.cur], Full)
  {}
}
