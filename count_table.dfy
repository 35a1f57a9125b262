/** `StatisticalTable` of module/stdio.py: the media each download ended with, by
    kind and outcome, and the summary table printed at the end. The panel drawing
    is not modelled; the table is returned as rows of numbers. */
module CountTable {
  import opened Wrappers
  import opened ProcessConfig

  /** One table row: a kind, the three outcome counts and their total. */
  datatype Row = Row(kind: string, success: nat, failure: nat, skip: nat, total: nat)

  datatype Table = Table(title: string, rows: seq<Row>)

  const VIDEO_TITLE := "视频下载统计"
  const PHOTO_TITLE := "图片下载统计"
  const MEDIA_TITLE := "媒体下载统计"
  /** The kind column of the summary row. */
  const TOTAL_LABEL := "合计"

  /** A row whose total is the sum of its three counts. */
  predicate Consistent(r: Row) {
    r.total == r.success + r.failure + r.skip
  }

  /** The column-wise sum of two rows. */
  function SumRow(a: Row, b: Row): (r: Row)
    ensures Consistent(a) && Consistent(b) ==> Consistent(r)
  {
    Row(TOTAL_LABEL, a.success + b.success, a.failure + b.failure, a.skip + b.skip, a.total + b.total)
  }

  class StatisticalTable {
    var skipVideo: set<string>
    var skipPhoto: set<string>
    var successVideo: set<string>
    var successPhoto: set<string>
    var failureVideo: set<string>
    var failurePhoto: set<string>

    constructor()
      ensures skipVideo == {} && skipPhoto == {}
      ensures successVideo == {} && successPhoto == {}
      ensures failureVideo == {} && failurePhoto == {}
    {
      skipVideo, skipPhoto := {}, {};
      successVideo, successPhoto := {}, {};
      failureVideo, failurePhoto := {}, {};
    }

    /** The video row, counted from the three video sets. */
    function VideoRow(): (r: Row)
      reads this
      ensures Consistent(r)
      ensures r.success == |successVideo| && r.failure == |failureVideo| && r.skip == |skipVideo|
    {
      Row(VIDEO, |successVideo|, |failureVideo|, |skipVideo|, |successVideo| + |failureVideo| + |skipVideo|)
    }

    /** The photo row, counted from the three photo sets. */
    function PhotoRow(): (r: Row)
      reads this
      ensures Consistent(r)
      ensures r.success == |successPhoto| && r.failure == |failurePhoto| && r.skip == |skipPhoto|
    {
      Row(PHOTO, |successPhoto|, |failurePhoto|, |skipPhoto|, |successPhoto| + |failurePhoto| + |skipPhoto|)
    }

    /** `print_count_table`: with one recorded kind, that kind's row and a summary row
        equal to it; with two, both rows and their column sums; otherwise nothing. */
    method PrintCountTable(recordDtype: set<string>) returns (table: Option<Table>)
      ensures table.Some? ==> |recordDtype| == 1 || |recordDtype| == 2
      ensures table.Some? ==> forall i :: 0 <= i < |table.value.rows| ==> Consistent(table.value.rows[i])
      ensures |recordDtype| == 1 && VIDEO in recordDtype ==>
        table == Some(Table(VIDEO_TITLE, [VideoRow(), VideoRow().(kind := TOTAL_LABEL)]))
      ensures |recordDtype| == 1 && PHOTO in recordDtype ==>
        table == Some(Table(PHOTO_TITLE, [PhotoRow(), PhotoRow().(kind := TOTAL_LABEL)]))
      ensures |recordDtype| == 1 && VIDEO !in recordDtype && PHOTO !in recordDtype ==> table == None
      ensures |recordDtype| == 2 ==>
        table == Some(Table(MEDIA_TITLE, [VideoRow(), PhotoRow(), SumRow(VideoRow(), PhotoRow())]))
    {
      var successVideoCount := |successVideo|;
      var failureVideoCount := |failureVideo|;
      var skipVideoCount := |skipVideo|;
      var successPhotoCount := |successPhoto|;
      var failurePhotoCount := |failurePhoto|;
      var skipPhotoCount := |skipPhoto|;
      var totalVideo := successVideoCount + failureVideoCount + skipVideoCount;
      var totalPhoto := successPhotoCount + failurePhotoCount + skipPhotoCount;
      var rdtLength := |recordDtype|;
      table := None;
      if rdtLength == 1 {
        var compareDtype :| compareDtype in recordDtype;
        assert recordDtype == {compareDtype} by {
          assert |recordDtype - {compareDtype}| == 0;
        }
        if compareDtype == VIDEO {
          var video := Row(VIDEO, successVideoCount, failureVideoCount, skipVideoCount, totalVideo);
          table := Some(Table(VIDEO_TITLE, [video, video.(kind := TOTAL_LABEL)]));
        }
        if compareDtype == PHOTO {
          var photo := Row(PHOTO, successPhotoCount, failurePhotoCount, skipPhotoCount, totalPhoto);
          table := Some(Table(PHOTO_TITLE, [photo, photo.(kind := TOTAL_LABEL)]));
        }
      } else if rdtLength == 2 {
        var video := Row(VIDEO, successVideoCount, failureVideoCount, skipVideoCount, totalVideo);
        var photo := Row(PHOTO, successPhotoCount, failurePhotoCount, skipPhotoCount, totalPhoto);
        var total := Row(TOTAL_LABEL, successVideoCount + successPhotoCount, failureVideoCount + failurePhotoCount,
          skipVideoCount + skipPhotoCount, totalVideo + totalPhoto);
        table := Some(Table(MEDIA_TITLE, [video, photo, total]));
      }
    }
  }

  /** With both kinds recorded, the summary's total is the grand total of all six sets:
      an item is counted once per outcome set that holds it. */
  lemma MediaTotal(t: StatisticalTable)
    ensures var s := SumRow(t.VideoRow(), t.PhotoRow());
      s.total == |t.successVideo| + |t.failureVideo| + |t.skipVideo|
        + |t.successPhoto| + |t.failurePhoto| + |t.skipPhoto|
      && s.total == s.success + s.failure + s.skip
  {
  }
}
