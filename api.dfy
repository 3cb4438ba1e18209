/**
 * The read side (traffic_data and video_preview in main.py): the query for
 * the most recent rows and the preview endpoint. Both only read the state
 * the sampling loop writes.
 */
module Api {
  import opened Wrappers
  import opened Detection
  import opened Pipeline

  /** `.limit(100)` of the recent-rows query. */
  const RecentLimit: nat := 100

  function Min(a: nat, b: nat): nat
  {
    if a <= b then a else b
  }

  /** Rows ordered by timestamp, newest first; the order of equal timestamps is left open. */
  predicate NewestFirst(rows: seq<TrafficData>)
  {
    forall i, j :: 0 <= i <= j < |rows| ==> rows[j].timestamp <= rows[i].timestamp
  }

  /** Puts `row` in front of the first row that is not newer than it. */
  function Insert(row: TrafficData, rows: seq<TrafficData>): seq<TrafficData>
  {
    if rows == [] || rows[0].timestamp <= row.timestamp then [row] + rows
    else [rows[0]] + Insert(row, rows[1..])
  }

  /** The order the store returns for `order_by(timestamp.desc())`. */
  function SortNewestFirst(rows: seq<TrafficData>): seq<TrafficData>
  {
    if rows == [] then [] else Insert(rows[0], SortNewestFirst(rows[1..]))
  }

  /** A row no older than any of a newest-first sequence can go in front of it. */
  lemma ConsNewestFirst(head: TrafficData, rows: seq<TrafficData>)
    requires NewestFirst(rows)
    requires forall k :: 0 <= k < |rows| ==> rows[k].timestamp <= head.timestamp
    ensures NewestFirst([head] + rows)
  {
    var r := [head] + rows;
    forall i, j | 0 <= i <= j < |r|
      ensures r[j].timestamp <= r[i].timestamp
    {
      if 0 < i {
        assert r[i] == rows[i - 1] && r[j] == rows[j - 1];
      } else if 0 < j {
        assert r[j] == rows[j - 1];
      }
    }
  }

  /** Inserting adds exactly the inserted row. */
  lemma {:induction false} InsertMultiset(row: TrafficData, rows: seq<TrafficData>)
    ensures multiset(Insert(row, rows)) == multiset(rows) + multiset{row}
  {
    if rows != [] && row.timestamp < rows[0].timestamp {
      InsertMultiset(row, rows[1..]);
      assert rows == [rows[0]] + rows[1..];
    }
  }

  /** Inserting a row no newer than `t` into rows no newer than `t` gives rows no newer than `t`. */
  lemma {:induction false} InsertBounded(row: TrafficData, rows: seq<TrafficData>, t: nat)
    requires row.timestamp <= t
    requires forall k :: 0 <= k < |rows| ==> rows[k].timestamp <= t
    ensures forall k :: 0 <= k < |Insert(row, rows)| ==> Insert(row, rows)[k].timestamp <= t
  {
    if rows != [] && row.timestamp < rows[0].timestamp {
      var tail := rows[1..];
      assert forall k :: 0 <= k < |tail| ==> tail[k] == rows[k + 1];
      InsertBounded(row, tail, t);
      var r := Insert(row, rows);
      assert r == [rows[0]] + Insert(row, tail);
      assert forall k :: 1 <= k < |r| ==> r[k] == Insert(row, tail)[k - 1];
    }
  }

  /** Inserting a row keeps the rows, adds it, and keeps them newest first. */
  lemma {:induction false} InsertCorrect(row: TrafficData, rows: seq<TrafficData>)
    requires NewestFirst(rows)
    ensures multiset(Insert(row, rows)) == multiset(rows) + multiset{row}
    ensures NewestFirst(Insert(row, rows))
  {
    InsertMultiset(row, rows);
    if rows == [] || rows[0].timestamp <= row.timestamp {
      ConsNewestFirst(row, rows);
    } else {
      var head, tail := rows[0], rows[1..];
      assert forall k :: 0 <= k < |tail| ==> tail[k] == rows[k + 1];
      assert NewestFirst(tail);
      InsertCorrect(row, tail);
      InsertBounded(row, tail, head.timestamp);
      ConsNewestFirst(head, Insert(row, tail));
    }
  }

  /** Sorting returns the same rows, newest first. */
  lemma {:induction false} SortCorrect(rows: seq<TrafficData>)
    ensures multiset(SortNewestFirst(rows)) == multiset(rows)
    ensures NewestFirst(SortNewestFirst(rows))
  {
    if rows != [] {
      SortCorrect(rows[1..]);
      InsertCorrect(rows[0], SortNewestFirst(rows[1..]));
      assert rows == [rows[0]] + rows[1..];
    }
  }

  /** The rows left out by keeping the first m are the rows after them. */
  lemma LeftOutRows(rows: seq<TrafficData>, m: nat)
    requires m <= |rows|
    ensures multiset(rows) - multiset(rows[..m]) == multiset(rows[m..])
  {
    assert rows == rows[..m] + rows[m..];
  }

  /** The first m rows of a newest-first order are the m newest: no row left out is newer. */
  lemma TakeNewest(sorted: seq<TrafficData>, m: nat)
    requires NewestFirst(sorted) && m <= |sorted|
    ensures forall x, j :: x in multiset(sorted) - multiset(sorted[..m]) && 0 <= j < m ==>
              x.timestamp <= sorted[..m][j].timestamp
  {
    var kept, rest := sorted[..m], sorted[m..];
    LeftOutRows(sorted, m);
    forall x, j | x in multiset(sorted) - multiset(kept) && 0 <= j < m
      ensures x.timestamp <= kept[j].timestamp
    {
      assert x in rest;
      var n :| 0 <= n < |rest| && rest[n] == x;
      assert rest[n] == sorted[m + n] && kept[j] == sorted[j];
    }
  }

  /**
   * `query(TrafficData).order_by(timestamp.desc()).limit(100)`: at most 100
   * rows of the table, newest first, and no row of the table that is left
   * out is newer than one that is returned.
   */
  function RecentRows(table: seq<TrafficData>): (r: seq<TrafficData>)
    ensures |r| == Min(RecentLimit, |table|)
    ensures NewestFirst(r)
    ensures multiset(r) <= multiset(table)
    ensures forall x, j :: x in multiset(table) - multiset(r) && 0 <= j < |r| ==> x.timestamp <= r[j].timestamp
  {
    SortCorrect(table);
    var sorted := SortNewestFirst(table);
    var m := Min(RecentLimit, |sorted|);
    assert |sorted| == |multiset(sorted)| == |table|;
    TakeNewest(sorted, m);
    assert sorted == sorted[..m] + sorted[m..];
    sorted[..m]
  }

  /** One element of the JSON list returned by /api/data. */
  datatype DataItem = DataItem(
    junction: string,
    total: int,
    car: int,
    bus: int,
    truck: int,
    motorcycle: int,
    timestamp: nat)

  /** The projection of a row onto the response fields. */
  function ItemOf(r: TrafficData): DataItem
  {
    DataItem(r.junction, r.totalCount, r.carCount, r.busCount, r.truckCount, r.motorcycleCount, r.timestamp)
  }

  /**
   * traffic_data: the recent rows projected onto the response fields, in
   * the query's order, so that no row left out is newer than an item
   * returned; an error anywhere in the query answers an empty list.
   */
  function TrafficDataResponse(table: seq<TrafficData>, queryFails: bool): (items: seq<DataItem>)
    ensures queryFails ==> items == []
    ensures !queryFails ==> |items| == Min(RecentLimit, |table|)
    ensures !queryFails ==>
              |items| == |RecentRows(table)| && forall i :: 0 <= i < |items| ==> items[i] == ItemOf(RecentRows(table)[i])
    ensures !queryFails ==>
              forall x, i :: x in multiset(table) - multiset(RecentRows(table)) && 0 <= i < |items| ==>
                x.timestamp <= items[i].timestamp
    ensures forall i, j :: 0 <= i <= j < |items| ==> items[j].timestamp <= items[i].timestamp
    ensures forall i :: 0 <= i < |items| ==> exists k :: 0 <= k < |table| && items[i] == ItemOf(table[k])
    ensures WellFormed(table) ==>
              forall i :: 0 <= i < |items| ==> items[i].total == items[i].car + items[i].bus + items[i].truck + items[i].motorcycle
  {
    if queryFails then []
    else
      var rows := RecentRows(table);
      RowsFromTable(table, rows);
      seq(|rows|, i requires 0 <= i < |rows| => ItemOf(rows[i]))
  }

  /** `x` is one of the table's rows. */
  predicate InTable(table: seq<TrafficData>, x: TrafficData)
  {
    exists k :: 0 <= k < |table| && table[k] == x
  }

  /** Every row of a sub-multiset of the table is a row of the table, consistent when the table is. */
  lemma RowsFromTable(table: seq<TrafficData>, rows: seq<TrafficData>)
    requires multiset(rows) <= multiset(table)
    ensures forall i :: 0 <= i < |rows| ==> InTable(table, rows[i])
    ensures WellFormed(table) ==> forall i :: 0 <= i < |rows| ==> Consistent(rows[i])
  {
    forall i | 0 <= i < |rows|
      ensures InTable(table, rows[i])
      ensures WellFormed(table) ==> Consistent(rows[i])
    {
      assert rows[i] in multiset(rows);
      assert rows[i] in table;
    }
  }

  /** What cv2.imencode and send_file do with the preview frame. */
  datatype Encoding = Encoded | EncodeFailed | EncodeRaised

  /** The answers of /video-preview. */
  datatype PreviewResponse = NotReady | Jpeg(image: Frame) | EncodingFailed | Unavailable

  /** The HTTP status of each answer. */
  function StatusOf(r: PreviewResponse): nat
  {
    match r
    case NotReady => 503
    case Jpeg(_) => 200
    case EncodingFailed => 500
    case Unavailable => 500
  }

  /**
   * video_preview: "not ready" (503) exactly when no frame has been
   * processed yet; otherwise the current preview frame as a JPEG, or a 500
   * when encoding it fails.
   */
  function VideoPreview(slot: Option<Frame>, encoding: Encoding): (r: PreviewResponse)
    ensures StatusOf(r) == 503 <==> slot.None?
    ensures StatusOf(r) == 200 <==> slot.Some? && encoding.Encoded?
    ensures r.Jpeg? ==> slot == Some(r.image)
  {
    match slot
    case None => NotReady
    case Some(frame) =>
      match encoding
      case Encoded => Jpeg(frame)
      case EncodeFailed => EncodingFailed
      case EncodeRaised => Unavailable
  }

  /**
   * After process_video has run from start-up, /video-preview answers 503
   * exactly when fewer than 10 frames could be read; otherwise a 200 carries
   * the 640x480 output of frame number 10·floor(F/10), the last processed
   * one, and an encoding that fails answers 500.
   */
  lemma PreviewAfterProcessing(video: Video, encoding: Encoding)
    ensures var r := VideoPreview(PreviewAfter(Sampled(Frames(video)), None), encoding);
            && (StatusOf(r) == 503 <==> |Frames(video)| < 10)
            && (StatusOf(r) == 500 <==> |Frames(video)| >= 10 && !encoding.Encoded?)
            && (r.Jpeg? ==> |Frames(video)| >= 10
                            && r.image == Processed(Frames(video)[10 * (|Frames(video)| / 10) - 1]))
            && (r.Jpeg? ==> r.image.width == TargetWidth && r.image.height == TargetHeight)
  {
    PreviewAfterRun(Frames(video), None);
  }
}
