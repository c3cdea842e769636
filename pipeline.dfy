/**
 * The pipeline driver: choosing the first few distinct contracts of the
 * knowledge-base file, and embedding the chunks of those contracts and
 * sending them to the vector store in batches of 32. The file is a sequence
 * of already-decoded records; the embedding service is a function from a text
 * to the vector it returns; each call to the vector store is an element of
 * the batches the method returns.
 */
module Pipeline {
  import opened Wrappers
  import opened Values
  import Strings

  /** The dimension the embedding model must return. */
  const EmbedDim: nat := 1536

  /** The number of points per vector-store call inside the loop. */
  const BatchSize: nat := 32

  // ===========================================================================
  // select_first_contracts

  /** No element occurs twice. */
  predicate Distinct(xs: seq<string>) {
    forall i, j | 0 <= i < j < |xs| :: xs[i] != xs[j]
  }

  /** The distinct elements of `ids`, in the order of their first occurrence. */
  function Dedup(ids: seq<string>): (r: seq<string>)
    ensures |r| <= |ids|
    ensures ids != [] ==> r != []
  {
    if ids == [] then []
    else
      var d := Dedup(ids[..|ids| - 1]);
      if ids[|ids| - 1] in d then d else d + [ids[|ids| - 1]]
  }

  /** The first `n` distinct ids, or all of them when there are fewer. */
  function FirstDistinct(ids: seq<string>, n: int): (r: seq<string>)
    ensures r <= Dedup(ids)
    ensures |r| <= if n <= 0 then 0 else n
  {
    var d := Dedup(ids);
    if n <= 0 then [] else if |d| <= n then d else d[..n]
  }

  lemma {:induction false} DedupDistinct(ids: seq<string>)
    ensures Distinct(Dedup(ids))
  {
    if ids != [] {
      DedupDistinct(ids[..|ids| - 1]);
    }
  }

  /** Every id occurs in the result and the result holds nothing else. */
  lemma {:induction false} DedupElems(ids: seq<string>)
    ensures forall x :: x in Dedup(ids) <==> x in ids
  {
    if ids != [] {
      var init := ids[..|ids| - 1];
      DedupElems(init);
      assert ids == init + [ids[|ids| - 1]];
    }
  }

  /** Reading more ids only appends to the result: it is in first-occurrence order. */
  lemma {:induction false} DedupPrefix(ids: seq<string>, k: nat)
    requires k <= |ids|
    ensures Dedup(ids[..k]) <= Dedup(ids)
    decreases |ids|
  {
    if k < |ids| {
      var init := ids[..|ids| - 1];
      assert ids[..k] == init[..k];
      DedupPrefix(init, k);
    } else {
      assert ids[..k] == ids;
    }
  }

  /** A sequence without repeats has as many elements as its set. */
  lemma {:induction false} DistinctCard(xs: seq<string>)
    requires Distinct(xs)
    ensures |set x | x in xs| == |xs|
  {
    if xs != [] {
      var init := xs[..|xs| - 1];
      var last := xs[|xs| - 1];
      assert Distinct(init);
      DistinctCard(init);
      assert (set x | x in xs) == (set x | x in init) + {last} by {
        assert xs == init + [last];
      }
      assert last !in init;
    }
  }

  /**
   * `select_first_contracts`: before each line, stop once `n` ids are chosen;
   * otherwise add the line's contract id unless it was chosen already. The
   * result is the set of the first `n` distinct ids, and holds at most `n`.
   */
  method SelectFirstContracts(ids: seq<string>, n: int) returns (selected: set<string>)
    ensures selected == set x | x in FirstDistinct(ids, n)
    ensures |selected| <= if n < 0 then 0 else n
  {
    var contractIds: seq<string> := [];
    var i := 0;
    while i < |ids|
      invariant i <= |ids|
      invariant contractIds == Dedup(ids[..i])
      invariant i == 0 || |contractIds| <= n
    {
      if |contractIds| >= n {
        break;
      }
      var cid := ids[i];
      assert ids[..i + 1][..i] == ids[..i];
      if cid !in contractIds {
        contractIds := contractIds + [cid];
      }
      i := i + 1;
    }
    DedupPrefix(ids, i);
    if i == |ids| {
      assert ids[..i] == ids;
    }
    assert contractIds == FirstDistinct(ids, n);
    DedupDistinct(ids);
    DistinctCard(contractIds);
    selected := set x | x in contractIds;
  }

  /** With no more than `n` distinct ids, every id is chosen. */
  lemma SelectsAllWhenFew(ids: seq<string>, n: int)
    requires n > 0 && |Dedup(ids)| <= n
    ensures (set x | x in FirstDistinct(ids, n)) == set x | x in ids
  {
    DedupElems(ids);
  }

  /** The ids chosen from a prefix of the file stay chosen when more lines follow. */
  lemma SelectionGrows(ids: seq<string>, k: nat, n: int)
    requires k <= |ids|
    ensures FirstDistinct(ids[..k], n) <= FirstDistinct(ids, n)
  {
    DedupPrefix(ids, k);
  }

  // ===========================================================================
  // embed_text

  datatype EmbedError = DimensionMismatch(got: nat)

  /** `embed_text` after the service answered `vector`: only the expected dimension is accepted. */
  function EmbedText(vector: seq<real>): (r: Result<seq<real>, EmbedError>)
    ensures r.Success? <==> |vector| == EmbedDim
    ensures r.Success? ==> r.value == vector
    ensures r.Failure? ==> r.error == DimensionMismatch(|vector|)
  {
    if |vector| != EmbedDim then Failure(DimensionMismatch(|vector|)) else Success(vector)
  }

  // ===========================================================================
  // vectorize_sample_kb

  /** A decoded line of the knowledge-base file; `contractId` is its payload's `contract_id`. */
  datatype KbRecord = KbRecord(id: string, text: string, contractId: string, payload: Dict<Value>)

  datatype Point = Point(id: string, vector: seq<real>, payload: Dict<Value>)

  /** The records of the selected contracts, in file order. */
  function Selected(records: seq<KbRecord>, selected: set<string>): seq<KbRecord> {
    if records == [] then []
    else
      var init := Selected(records[..|records| - 1], selected);
      var r := records[|records| - 1];
      if r.contractId in selected then init + [r] else init
  }

  function PointOf(r: KbRecord, embed: string -> seq<real>): Point {
    Point(r.id, embed(r.text), r.payload)
  }

  /** The points of some records, in order. */
  function PointsOf(records: seq<KbRecord>, embed: string -> seq<real>): (points: seq<Point>)
    ensures |points| == |records|
  {
    seq(|records|, i requires 0 <= i < |records| => PointOf(records[i], embed))
  }

  /** The index of the first selected record whose embedding has the wrong dimension, or `|records|`. */
  function FirstBadRecord(records: seq<KbRecord>, selected: set<string>, embed: string -> seq<real>): (k: nat)
    ensures k <= |records|
    ensures forall j | 0 <= j < k :: records[j].contractId in selected ==> |embed(records[j].text)| == EmbedDim
    ensures k < |records| ==> records[k].contractId in selected && |embed(records[k].text)| != EmbedDim
  {
    if records == [] then 0
    else if records[0].contractId in selected && |embed(records[0].text)| != EmbedDim then 0
    else
      var k := FirstBadRecord(records[1..], selected, embed);
      assert forall j | 1 <= j < |records| :: records[j] == records[1..][j - 1];
      1 + k
  }

  lemma {:induction false} FirstBadRecordAt(records: seq<KbRecord>, selected: set<string>, embed: string -> seq<real>, i: nat)
    requires i <= |records|
    requires forall j | 0 <= j < i :: records[j].contractId in selected ==> |embed(records[j].text)| == EmbedDim
    requires i < |records| ==> records[i].contractId in selected && |embed(records[i].text)| != EmbedDim
    ensures FirstBadRecord(records, selected, embed) == i
  {
    if i > 0 {
      assert forall j | 0 <= j < i - 1 :: records[1..][j] == records[j + 1];
      FirstBadRecordAt(records[1..], selected, embed, i - 1);
    }
  }

  lemma SelectedSnoc(records: seq<KbRecord>, selected: set<string>, i: nat)
    requires i < |records|
    ensures Selected(records[..i + 1], selected) ==
      Selected(records[..i], selected) + (if records[i].contractId in selected then [records[i]] else [])
  {
    assert records[..i + 1][..i] == records[..i];
  }

  lemma PointsOfSnoc(records: seq<KbRecord>, r: KbRecord, embed: string -> seq<real>)
    ensures PointsOf(records + [r], embed) == PointsOf(records, embed) + [PointOf(r, embed)]
  {
  }

  lemma {:induction false} FlattenFull(batches: seq<seq<Point>>)
    requires forall b | b in batches :: |b| == BatchSize
    ensures |Strings.Flatten(batches)| == |batches| * BatchSize
  {
    if batches != [] {
      var init := batches[..|batches| - 1];
      assert forall b | b in init :: b in batches;
      FlattenFull(init);
    }
  }

  /**
   * The state of the batching after `points`: the batches sent so far hold 32
   * points each, the unfinished batch fewer, and together they are `points`.
   */
  predicate Batched(batches: seq<seq<Point>>, batch: seq<Point>, points: seq<Point>) {
    && (forall b | b in batches :: |b| == BatchSize)
    && |batch| < BatchSize
    && Strings.Flatten(batches) + batch == points
  }

  /** One more point: the unfinished batch grows, and is sent when it reaches 32. */
  lemma BatchedStep(batches: seq<seq<Point>>, batch: seq<Point>, points: seq<Point>, p: Point)
    requires Batched(batches, batch, points)
    ensures |batch + [p]| >= BatchSize ==> Batched(batches + [batch + [p]], [], points + [p])
    ensures |batch + [p]| < BatchSize ==> Batched(batches, batch + [p], points + [p])
  {
    Strings.FlattenAppend(batches, batch + [p]);
  }

  /**
   * `vectorize_sample_kb`: records of other contracts are skipped; each
   * selected record is embedded and becomes a point; a batch is sent as soon
   * as it holds 32 points; after the last line the remaining points, if any,
   * are sent (`final`, empty when no such call is made). When an embedding has
   * the wrong dimension the error stops the run: the points of the unfinished
   * batch are never sent, and neither is any later record.
   */
  method VectorizeSampleKb(records: seq<KbRecord>, selected: set<string>, embed: string -> seq<real>)
    returns (batches: seq<seq<Point>>, final: seq<Point>, total: nat, error: Option<EmbedError>)
    ensures forall b | b in batches :: |b| == BatchSize
    ensures |final| < BatchSize
    ensures var k := FirstBadRecord(records, selected, embed);
      var points := PointsOf(Selected(records[..k], selected), embed);
      && total == |points|
      && (k == |records| ==> error == None && Strings.Flatten(batches) + final == points)
      && (k < |records| ==>
            && error == Some(DimensionMismatch(|embed(records[k].text)|))
            && final == []
            && Strings.Flatten(batches) <= points
            && |points| - |Strings.Flatten(batches)| < BatchSize)
  {
    batches := [];
    var batch: seq<Point> := [];
    total := 0;
    for i := 0 to |records|
      invariant Batched(batches, batch, PointsOf(Selected(records[..i], selected), embed))
      invariant total == |Selected(records[..i], selected)|
      invariant forall j | 0 <= j < i :: records[j].contractId in selected ==> |embed(records[j].text)| == EmbedDim
    {
      var rec := records[i];
      ghost var before := Selected(records[..i], selected);
      SelectedSnoc(records, selected, i);
      if rec.contractId in selected {
        var vector := EmbedText(embed(rec.text));
        if vector.Failure? {
          StoppedAt(records, selected, embed, i, batches, batch);
          final := [];
          error := Some(vector.error);
          return;
        }
        var point := Point(rec.id, vector.value, rec.payload);
        PointsOfSnoc(before, rec, embed);
        BatchedStep(batches, batch, PointsOf(before, embed), point);
        batch := batch + [point];
        total := total + 1;
        if |batch| >= BatchSize {
          batches := batches + [batch];
          batch := [];
        }
      }
    }
    FinishedAll(records, selected, embed, batches, batch);
    final := batch;
    error := None;
  }

  /** The run stops at record `i`: the batches sent are a prefix of the points so far. */
  lemma StoppedAt(records: seq<KbRecord>, selected: set<string>, embed: string -> seq<real>, i: nat,
                  batches: seq<seq<Point>>, batch: seq<Point>)
    requires i < |records| && records[i].contractId in selected && |embed(records[i].text)| != EmbedDim
    requires forall j | 0 <= j < i :: records[j].contractId in selected ==> |embed(records[j].text)| == EmbedDim
    requires Batched(batches, batch, PointsOf(Selected(records[..i], selected), embed))
    ensures var k := FirstBadRecord(records, selected, embed);
      var points := PointsOf(Selected(records[..k], selected), embed);
      && k == i
      && Strings.Flatten(batches) <= points
      && |points| - |Strings.Flatten(batches)| < BatchSize
  {
    FirstBadRecordAt(records, selected, embed, i);
  }

  /** The run reads every record: the batches sent and the unfinished one are all the points. */
  lemma FinishedAll(records: seq<KbRecord>, selected: set<string>, embed: string -> seq<real>,
                    batches: seq<seq<Point>>, batch: seq<Point>)
    requires forall j | 0 <= j < |records| :: records[j].contractId in selected ==> |embed(records[j].text)| == EmbedDim
    requires Batched(batches, batch, PointsOf(Selected(records[..|records|], selected), embed))
    ensures var k := FirstBadRecord(records, selected, embed);
      && k == |records|
      && Strings.Flatten(batches) + batch == PointsOf(Selected(records[..k], selected), embed)
  {
    FirstBadRecordAt(records, selected, embed, |records|);
  }

  /**
   * The calls are determined by the points: `|points| / 32` full batches, the
   * `i`-th holding points `32 i` to `32 i + 31`, then the remaining
   * `|points| % 32` points.
   */
  lemma BatchesSplitPoints(batches: seq<seq<Point>>, final: seq<Point>, points: seq<Point>)
    requires forall b | b in batches :: |b| == BatchSize
    requires |final| < BatchSize
    requires Strings.Flatten(batches) + final == points
    ensures |batches| == |points| / BatchSize
    ensures final == points[|batches| * BatchSize..]
    ensures forall i | 0 <= i < |batches| :: batches[i] == points[i * BatchSize..i * BatchSize + BatchSize]
  {
    FlattenFull(batches);
    QuotientOfBatches(|batches|, |final|);
    forall i | 0 <= i < |batches| ensures batches[i] == points[i * BatchSize..i * BatchSize + BatchSize] {
      BatchInPoints(batches, final, points, i);
    }
  }

  lemma BatchInPoints(batches: seq<seq<Point>>, final: seq<Point>, points: seq<Point>, i: nat)
    requires forall b | b in batches :: |b| == BatchSize
    requires Strings.Flatten(batches) + final == points
    requires i < |batches|
    ensures i * BatchSize + BatchSize <= |points|
    ensures batches[i] == points[i * BatchSize..i * BatchSize + BatchSize]
  {
    BatchAt(batches, i);
    SliceOfConcat(Strings.Flatten(batches), final, i * BatchSize, i * BatchSize + BatchSize);
  }

  lemma SliceOfConcat<T>(xs: seq<T>, ys: seq<T>, lo: nat, hi: nat)
    requires lo <= hi <= |xs|
    ensures (xs + ys)[lo..hi] == xs[lo..hi]
  {
  }

  lemma QuotientOfBatches(n: nat, r: nat)
    requires r < BatchSize
    ensures (n * BatchSize + r) / BatchSize == n
  {
  }

  lemma {:induction false} BatchAt(batches: seq<seq<Point>>, i: nat)
    requires forall b | b in batches :: |b| == BatchSize
    requires i < |batches|
    ensures i * BatchSize + BatchSize <= |Strings.Flatten(batches)|
    ensures batches[i] == Strings.Flatten(batches)[i * BatchSize..i * BatchSize + BatchSize]
  {
    var init := batches[..|batches| - 1];
    assert forall b | b in init :: b in batches;
    FlattenFull(init);
    if i < |batches| - 1 {
      BatchAt(init, i);
    }
  }

  /** Only records of the selected contracts are embedded, and all of them, in file order. */
  lemma {:induction false} SelectedExactly(records: seq<KbRecord>, selected: set<string>)
    ensures forall r | r in Selected(records, selected) :: r in records && r.contractId in selected
    ensures forall r | r in records && r.contractId in selected :: r in Selected(records, selected)
  {
    if records != [] {
      var init := records[..|records| - 1];
      SelectedExactly(init, selected);
      assert records == init + [records[|records| - 1]];
    }
  }

  /** Every point sent carries a vector of the expected dimension. */
  lemma SentVectorsHaveDim(records: seq<KbRecord>, selected: set<string>, embed: string -> seq<real>, k: nat)
    requires k <= FirstBadRecord(records, selected, embed)
    ensures forall p | p in PointsOf(Selected(records[..k], selected), embed) :: |p.vector| == EmbedDim
  {
    var sel := Selected(records[..k], selected);
    SelectedExactly(records[..k], selected);
    forall p | p in PointsOf(sel, embed) ensures |p.vector| == EmbedDim {
      var i :| 0 <= i < |sel| && PointsOf(sel, embed)[i] == p;
      assert sel[i] in sel;
      var j :| 0 <= j < k && records[..k][j] == sel[i];
    }
  }
}
