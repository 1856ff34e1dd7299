/**
 * The ledger of uploaded entries: appending a resolved batch, removing by
 * id, and the session state (entries plus rate) with the summary it shows.
 */
module Ledger {
  import opened Optional
  import opened Media
  import opened Durations
  import opened Charge

  // ---------------------------------------------------------------------
  // Ingestion
  // ---------------------------------------------------------------------

  /** The entries made for a resolved batch, in batch order. */
  function Resolve(batch: seq<Upload>): (es: seq<MediaEntry>)
    ensures |es| == |batch|
    ensures forall k :: 0 <= k < |batch| ==> es[k] == MakeEntry(batch[k])
  {
    if |batch| == 0 then [] else [MakeEntry(batch[0])] + Resolve(batch[1..])
  }

  /**
   * Ingesting a batch once every probe has answered: the existing entries
   * stay as they are, in front, followed by one entry per upload in batch
   * order (a failed probe still gives an entry, of zero seconds).
   */
  function Ingest(files: seq<MediaEntry>, batch: seq<Upload>): (r: seq<MediaEntry>)
    ensures |r| == |files| + |batch|
    ensures r[..|files|] == files
    ensures forall k :: 0 <= k < |batch| ==> r[|files| + k] == MakeEntry(batch[k])
  {
    files + Resolve(batch)
  }

  lemma IngestEmptyBatch(files: seq<MediaEntry>)
    ensures Ingest(files, []) == files
  {
  }

  /** A probe that failed or reported a non-finite duration still yields its entry, at 0 seconds. */
  lemma FailedProbeStillAppended(files: seq<MediaEntry>, batch: seq<Upload>, k: nat)
    requires k < |batch| && !batch[k].probe.Loaded?
    ensures |Ingest(files, batch)| == |files| + |batch|
    ensures Ingest(files, batch)[|files| + k].id == batch[k].id
    ensures Ingest(files, batch)[|files| + k].durationSeconds == 0
  {
  }

  lemma {:induction false} ResolveAppend(a: seq<Upload>, b: seq<Upload>)
    ensures Resolve(a + b) == Resolve(a) + Resolve(b)
  {
    if |a| == 0 {
      assert a + b == b;
    } else {
      assert (a + b)[1..] == a[1..] + b;
      ResolveAppend(a[1..], b);
    }
  }

  /** Two batches one after the other give the same ledger as one batch holding both. */
  lemma IngestTwice(files: seq<MediaEntry>, a: seq<Upload>, b: seq<Upload>)
    ensures Ingest(Ingest(files, a), b) == Ingest(files, a + b)
  {
    var ra, rb := Resolve(a), Resolve(b);
    ResolveAppend(a, b);
    calc {
      Ingest(Ingest(files, a), b);
      (files + ra) + rb;
      { SeqAssoc(files, ra, rb); }
      files + (ra + rb);
      Ingest(files, a + b);
    }
  }

  /** Joining sequences is associative (kept apart so the step above stays cheap). */
  lemma SeqAssoc<T>(x: seq<T>, y: seq<T>, z: seq<T>)
    ensures (x + y) + z == x + (y + z)
  {
  }

  /** Ingesting adds the batch's rounded durations to the total. */
  lemma IngestTotal(files: seq<MediaEntry>, batch: seq<Upload>)
    ensures TotalSeconds(Ingest(files, batch)) == TotalSeconds(files) + TotalSeconds(Resolve(batch))
  {
    TotalAppend(files, Resolve(batch));
  }

  /** At a non-negative rate, an upload never lowers the charge. */
  lemma IngestNeverLowersCharge(files: seq<MediaEntry>, batch: seq<Upload>, rate: real)
    requires rate >= 0.0
    ensures TotalCharge(files, rate) <= TotalCharge(Ingest(files, batch), rate)
  {
    IngestTotal(files, batch);
    ChargeMonotone(files, Ingest(files, batch), rate);
  }

  // ---------------------------------------------------------------------
  // Removal
  // ---------------------------------------------------------------------

  /** Some entry carries `id`. */
  ghost predicate HasId(files: seq<MediaEntry>, id: string) {
    exists i :: 0 <= i < |files| && files[i].id == id
  }

  /** No two entries share an id. */
  ghost predicate UniqueIds(files: seq<MediaEntry>) {
    forall i, j :: 0 <= i < j < |files| ==> files[i].id != files[j].id
  }

  /**
   * `removeFile`: keep the entries whose id differs from `id`, in their
   * original order. No entry left carries `id`, and an id nobody carries
   * leaves the ledger as it is.
   */
  function RemoveById(files: seq<MediaEntry>, id: string): (r: seq<MediaEntry>)
    ensures |r| <= |files|
    ensures forall i :: 0 <= i < |r| ==> r[i].id != id
    ensures !HasId(files, id) ==> r == files
  {
    if |files| == 0 then
      []
    else
      assert !HasId(files, id) ==> files[0].id != id && !HasId(files[1..], id) by {
        if HasId(files[1..], id) {
          var i :| 0 <= i < |files[1..]| && files[1..][i].id == id;
          assert files[i + 1].id == id;
        }
      }
      (if files[0].id == id then [] else [files[0]]) + RemoveById(files[1..], id)
  }

  /**
   * Removal is a filter: every entry keeps its number of occurrences
   * unless it carries `id`, in which case none is left.
   */
  lemma {:induction false} RemoveKeepsOthers(files: seq<MediaEntry>, id: string)
    ensures forall e :: multiset(RemoveById(files, id))[e] == if e.id == id then 0 else multiset(files)[e]
    ensures forall e :: e in RemoveById(files, id) <==> e in files && e.id != id
  {
    if |files| > 0 {
      var e, rest := files[0], files[1..];
      assert files == [e] + rest;
      RemoveKeepsOthers(rest, id);
      var head := if e.id == id then [] else [e];
      assert RemoveById(files, id) == head + RemoveById(rest, id);
    }
  }

  /** Removal works entry by entry: it distributes over concatenation. */
  lemma {:induction false} RemoveDistributes(a: seq<MediaEntry>, b: seq<MediaEntry>, id: string)
    ensures RemoveById(a + b, id) == RemoveById(a, id) + RemoveById(b, id)
  {
    if |a| == 0 {
      assert a + b == b;
    } else {
      assert (a + b)[1..] == a[1..] + b;
      RemoveDistributes(a[1..], b, id);
    }
  }

  lemma RemoveSingle(e: MediaEntry, id: string)
    ensures RemoveById([e], id) == if e.id == id then [] else [e]
  {
    assert [e][1..] == [];
  }

  /** Removing the same id twice is the same as removing it once. */
  lemma {:induction false} RemoveIdempotent(files: seq<MediaEntry>, id: string)
    ensures RemoveById(RemoveById(files, id), id) == RemoveById(files, id)
  {
  }

  /** Removals of two ids can be done in either order. */
  lemma {:induction false} RemoveCommutes(files: seq<MediaEntry>, x: string, y: string)
    ensures RemoveById(RemoveById(files, x), y) == RemoveById(RemoveById(files, y), x)
  {
    if |files| > 0 {
      var e := files[0];
      var rest := files[1..];
      assert files == [e] + rest;
      RemoveCommutes(rest, x, y);
      RemoveDistributes([e], rest, x);
      RemoveDistributes([e], rest, y);
      RemoveSingle(e, x);
      RemoveSingle(e, y);
      RemoveDistributes(RemoveById([e], x), RemoveById(rest, x), y);
      RemoveDistributes(RemoveById([e], y), RemoveById(rest, y), x);
      if e.id != x {
        RemoveSingle(e, y);
      }
      if e.id != y {
        RemoveSingle(e, x);
      }
    }
  }

  lemma UniqueIdsCons(e: MediaEntry, rest: seq<MediaEntry>)
    ensures UniqueIds([e] + rest) <==> UniqueIds(rest) && !HasId(rest, e.id)
  {
    var s := [e] + rest;
    assert forall i :: 0 <= i < |rest| ==> s[i + 1] == rest[i];
    if UniqueIds(s) {
      forall i, j | 0 <= i < j < |rest|
        ensures rest[i].id != rest[j].id
      {
        assert s[i + 1].id != s[j + 1].id;
      }
      forall i | 0 <= i < |rest|
        ensures rest[i].id != e.id
      {
        assert s[0].id != s[i + 1].id;
      }
    }
    if UniqueIds(rest) && !HasId(rest, e.id) {
      forall i, j | 0 <= i < j < |s|
        ensures s[i].id != s[j].id
      {
        assert s[j] == rest[j - 1];
        if i > 0 {
          assert s[i] == rest[i - 1];
        }
      }
    }
  }

  /** Removal keeps ids unique. */
  lemma {:induction false} RemoveKeepsUnique(files: seq<MediaEntry>, id: string)
    requires UniqueIds(files)
    ensures UniqueIds(RemoveById(files, id))
  {
    if |files| > 0 {
      var e, rest := files[0], files[1..];
      assert files == [e] + rest;
      UniqueIdsCons(e, rest);
      RemoveKeepsUnique(rest, id);
      if e.id != id {
        var r := RemoveById(rest, id);
        RemoveKeepsOthers(rest, id);
        UniqueIdsCons(e, r);
      }
    }
  }

  /**
   * With unique ids, removal drops one entry when the id is present and
   * none otherwise, and the total loses exactly that entry's duration.
   */
  lemma {:induction false} RemoveUnique(files: seq<MediaEntry>, id: string)
    requires UniqueIds(files)
    ensures HasId(files, id) ==> |RemoveById(files, id)| == |files| - 1
    ensures !HasId(files, id) ==> |RemoveById(files, id)| == |files|
    ensures forall i :: 0 <= i < |files| && files[i].id == id ==>
      TotalSeconds(RemoveById(files, id)) + files[i].durationSeconds == TotalSeconds(files)
  {
    if |files| > 0 {
      var e, rest := files[0], files[1..];
      assert files == [e] + rest;
      UniqueIdsCons(e, rest);
      RemoveUnique(rest, id);
      if e.id == id {
        assert RemoveById(files, id) == RemoveById(rest, id) == rest;
      } else {
        assert HasId(files, id) ==> HasId(rest, id) by {
          if HasId(files, id) {
            var i :| 0 <= i < |files| && files[i].id == id;
            assert i > 0 && rest[i - 1].id == id;
          }
        }
        assert HasId(rest, id) ==> HasId(files, id) by {
          if HasId(rest, id) {
            var i :| 0 <= i < |rest| && rest[i].id == id;
            assert files[i + 1].id == id;
          }
        }
        forall i | 0 <= i < |files| && files[i].id == id
          ensures TotalSeconds(RemoveById(files, id)) + files[i].durationSeconds == TotalSeconds(files)
        {
          assert i > 0 && rest[i - 1] == files[i];
        }
      }
    }
  }

  /** Removal never increases the total. */
  lemma {:induction false} RemoveTotalBound(files: seq<MediaEntry>, id: string)
    ensures TotalSeconds(RemoveById(files, id)) <= TotalSeconds(files)
  {
    if |files| > 0 {
      var e, rest := files[0], files[1..];
      var head := if e.id == id then [] else [e];
      assert RemoveById(files, id) == head + RemoveById(rest, id);
      RemoveTotalBound(rest, id);
      TotalAppend(head, RemoveById(rest, id));
      assert files == [e] + rest;
      TotalAppend([e], rest);
    }
  }

  /** At a non-negative rate, a removal never raises the charge. */
  lemma RemoveNeverRaisesCharge(files: seq<MediaEntry>, id: string, rate: real)
    requires rate >= 0.0
    ensures TotalCharge(RemoveById(files, id), rate) <= TotalCharge(files, rate)
  {
    RemoveTotalBound(files, id);
    ChargeMonotone(RemoveById(files, id), files, rate);
  }

  // ---------------------------------------------------------------------
  // Fresh ids on ingestion
  // ---------------------------------------------------------------------

  /** The batch's ids differ from each other and from every id already present. */
  ghost predicate FreshBatch(files: seq<MediaEntry>, batch: seq<Upload>) {
    && (forall i, j :: 0 <= i < j < |batch| ==> batch[i].id != batch[j].id)
    && (forall k :: 0 <= k < |batch| ==> !HasId(files, batch[k].id))
  }

  /** Ingesting a batch with fresh ids keeps ids unique. */
  lemma IngestKeepsUnique(files: seq<MediaEntry>, batch: seq<Upload>)
    requires UniqueIds(files) && FreshBatch(files, batch)
    ensures UniqueIds(Ingest(files, batch))
  {
    var r := Ingest(files, batch);
    forall i, j | 0 <= i < j < |r|
      ensures r[i].id != r[j].id
    {
      if j < |files| {
        assert r[i] == files[i] && r[j] == files[j];
      } else if i < |files| {
        assert r[i] == files[i];
        assert r[j].id == batch[j - |files|].id;
      } else {
        assert r[i].id == batch[i - |files|].id;
        assert r[j].id == batch[j - |files|].id;
      }
    }
  }

  // ---------------------------------------------------------------------
  // Session
  // ---------------------------------------------------------------------

  /** What the component holds: the entries, and the per-minute rate. */
  datatype Session = Session(files: seq<MediaEntry>, rate: real)

  /** A session starts with no entries and the default rate. */
  const Initial: Session := Session([], DefaultRate)

  /**
   * What can happen to a session. A rate edit carries the number read from
   * the input, or None when the text is not a number.
   */
  datatype Event =
    | Uploaded(batch: seq<Upload>)
    | Removed(id: string)
    | RateEdited(input: Option<real>)

  /** `parseFloat(value) || 0`: a non-number (NaN) falls back to 0. */
  function RateFromInput(input: Option<real>): (rate: real)
    ensures input.None? ==> rate == 0.0
    ensures input.Some? ==> rate == input.value
  {
    input.GetOr(0.0)
  }

  function Apply(s: Session, ev: Event): (t: Session)
    ensures ev.RateEdited? ==> t.files == s.files && t.rate == RateFromInput(ev.input)
    ensures !ev.RateEdited? ==> t.rate == s.rate
    ensures ev.Uploaded? ==> |t.files| == |s.files| + |ev.batch| && t.files[..|s.files|] == s.files
    ensures ev.Uploaded? ==> forall k :: 0 <= k < |ev.batch| ==> t.files[|s.files| + k] == MakeEntry(ev.batch[k])
    ensures ev.Removed? ==> t.files == RemoveById(s.files, ev.id)
    ensures ev.Removed? ==> forall e :: multiset(t.files)[e] == if e.id == ev.id then 0 else multiset(s.files)[e]
    ensures ev.Removed? ==> forall e :: e in t.files <==> e in s.files && e.id != ev.id
  {
    match ev
    case Uploaded(batch) => Session(Ingest(s.files, batch), s.rate)
    case Removed(id) =>
      RemoveKeepsOthers(s.files, id);
      Session(RemoveById(s.files, id), s.rate)
    case RateEdited(input) => Session(s.files, RateFromInput(input))
  }

  /** Each upload in the run brings ids fresh for the session at that point. */
  ghost predicate FreshRun(s: Session, evs: seq<Event>)
    decreases |evs|
  {
    |evs| == 0 ||
    ((evs[0].Uploaded? ==> FreshBatch(s.files, evs[0].batch)) && FreshRun(Apply(s, evs[0]), evs[1..]))
  }

  function Run(s: Session, evs: seq<Event>): Session
    decreases |evs|
  {
    if |evs| == 0 then s else Run(Apply(s, evs[0]), evs[1..])
  }

  /** Starting from unique ids, a run whose uploads bring fresh ids keeps ids unique. */
  lemma {:induction false} RunKeepsUnique(s: Session, evs: seq<Event>)
    requires UniqueIds(s.files) && FreshRun(s, evs)
    ensures UniqueIds(Run(s, evs).files)
    decreases |evs|
  {
    if |evs| > 0 {
      var ev := evs[0];
      if ev.Uploaded? {
        IngestKeepsUnique(s.files, ev.batch);
      } else if ev.Removed? {
        RemoveKeepsUnique(s.files, ev.id);
      }
      RunKeepsUnique(Apply(s, ev), evs[1..]);
    }
  }

  /** What the page shows for a session. */
  datatype Summary = Summary(total: Clock, charge: real, showsLabel: bool, rows: seq<Clock>)

  function Rows(files: seq<MediaEntry>): (rows: seq<Clock>)
    ensures |rows| == |files|
    ensures forall i :: 0 <= i < |files| ==>
      rows[i].seconds < 60 && rows[i].minutes * 60 + rows[i].seconds == files[i].durationSeconds
  {
    if |files| == 0 then [] else [RowClock(files[0])] + Rows(files[1..])
  }

  /**
   * The summary: the total split into minutes and seconds, the charge, the
   * label flag, and each row's own split.
   */
  function Summarise(s: Session): (v: Summary)
    ensures v.total.seconds < 60
    ensures v.total.minutes * 60 + v.total.seconds == TotalSeconds(s.files)
    ensures v.charge == Price(MinuteDecimal(TotalSeconds(s.files)), s.rate)
    ensures v.showsLabel <==> v.charge >= 150.005
    ensures |v.rows| == |s.files|
    ensures forall i :: 0 <= i < |s.files| ==>
      v.rows[i].seconds < 60 && v.rows[i].minutes * 60 + v.rows[i].seconds == s.files[i].durationSeconds
  {
    var total := TotalSeconds(s.files);
    WholeSecondsNeverCarry(total);
    var charge := TotalCharge(s.files, s.rate);
    Summary(FormatDuration(total as real), charge, ShowsLabel(charge), Rows(s.files))
  }
}
