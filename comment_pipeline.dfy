/**
 * The comment pipeline: `clean_comments` rewrites the fetched list slot by
 * slot, and `build_sentiment_df` drops the excluded entries, counts them and
 * labels the survivors.
 *
 * A Python list whose slots hold a string or `None` is an `array<Option<string>>`;
 * the pandas frame is an ordered sequence of rows, and a NaN cell is `None`.
 */
module CommentPipeline {
  import opened Options
  import opened TextSanitizer
  import opened LanguageFilter
  import opened SentimentClassifier

  // ---------------------------------------------------------------------------
  // clean_comments
  // ---------------------------------------------------------------------------

  /**
   * What `clean_comments` leaves in one slot: emoji stripped, then the language
   * filter applied to the stripped text. The slot ends up missing, empty, or
   * holding the stripped text detected as English.
   */
  function CleanComment(comment: string, findEmoji: string -> seq<string>,
                        detect: string -> Option<string>): (cleaned: Option<string>)
    ensures cleaned == None || cleaned == Some("") ||
            (cleaned == Some(StripEmoji(comment, findEmoji(comment))) &&
             detect(cleaned.value) == Some(ENGLISH))
    ensures cleaned.Some? ==> |cleaned.value| <= |comment|
  {
    RemoveNonEnglish(StripEmoji(comment, findEmoji(comment)), detect)
  }

  /** Every slot of a list cleaned independently, in place of its original. */
  function CleanSeq(comments: seq<string>, findEmoji: string -> seq<string>,
                    detect: string -> Option<string>): (cleaned: seq<Option<string>>)
    ensures |cleaned| == |comments|
  {
    seq(|comments|, i requires 0 <= i < |comments| => CleanComment(comments[i], findEmoji, detect))
  }

  /** The texts of a list every slot of which holds a string. */
  function Texts(list: seq<Option<string>>): (texts: seq<string>)
    requires forall i :: 0 <= i < |list| ==> list[i].Some?
    ensures |texts| == |list|
    ensures forall i :: 0 <= i < |list| ==> list[i] == Some(texts[i])
  {
    seq(|list|, i requires 0 <= i < |list| => list[i].value)
  }

  /** A list cleaned slot by slot is `CleanSeq` of the original texts. */
  lemma CleanSeqPointwise(original: seq<Option<string>>, now: seq<Option<string>>,
                          findEmoji: string -> seq<string>, detect: string -> Option<string>)
    requires forall i :: 0 <= i < |original| ==> original[i].Some?
    requires |now| == |original|
    requires forall i :: 0 <= i < |now| ==> now[i] == CleanComment(original[i].value, findEmoji, detect)
    ensures now == CleanSeq(Texts(original), findEmoji, detect)
  {
  }

  /**
   * `clean_comments`: for each index, the slot is overwritten with the
   * emoji-stripped comment and then with the language filter's verdict on it.
   * The same list object is returned.
   */
  method CleanComments(comments: array<Option<string>>, findEmoji: string -> seq<string>,
                       detect: string -> Option<string>) returns (cleaned: array<Option<string>>)
    requires forall i :: 0 <= i < comments.Length ==> comments[i].Some?
    modifies comments
    ensures cleaned == comments
    ensures forall i :: 0 <= i < comments.Length ==>
              comments[i] == CleanComment(old(comments[i]).value, findEmoji, detect)
    ensures comments[..] == CleanSeq(Texts(old(comments[..])), findEmoji, detect)
  {
    ghost var original := comments[..];
    for index := 0 to comments.Length
      invariant forall i :: 0 <= i < index ==>
                  comments[i] == CleanComment(original[i].value, findEmoji, detect)
      invariant forall i :: index <= i < comments.Length ==> comments[i] == original[i]
    {
      var comment := comments[index].value;
      var demojiText := RemoveEmoji(comment, findEmoji);
      comments[index] := Some(demojiText);
      comments[index] := RemoveNonEnglish(comments[index].value, detect);
    }
    CleanSeqPointwise(original, comments[..], findEmoji, detect);
    cleaned := comments;
  }

  // ---------------------------------------------------------------------------
  // build_sentiment_df
  // ---------------------------------------------------------------------------

  datatype Row<L> = Row(comment: string, sentiment: L)

  /** The frame's rows in order, with the number of entries removed from analysis. */
  datatype Analysis<L> = Analysis(rows: seq<Row<L>>, removed: nat)

  /** The error pandas raises when the column names do not fit the frame. */
  datatype FrameError = ColumnLengthMismatch

  /** An entry `build_sentiment_df` removes: the empty string or a missing value. */
  predicate Excluded(cell: Option<string>) {
    cell == None || cell == Some("")
  }

  /** `replace('', np.nan)` on one cell. */
  function ReplaceCell(cell: Option<string>): Option<string> {
    if cell == Some("") then None else cell
  }

  /** `replace('', np.nan)` on the comment column. */
  function ReplaceEmptyWithNaN(column: seq<Option<string>>): (replaced: seq<Option<string>>)
    ensures |replaced| == |column|
    ensures forall i :: 0 <= i < |column| ==> (replaced[i] == None <==> Excluded(column[i]))
    ensures forall i :: 0 <= i < |column| ==> (replaced[i].Some? ==> replaced[i] == column[i])
  {
    seq(|column|, i requires 0 <= i < |column| => ReplaceCell(column[i]))
  }

  /** `isna().sum()`: the number of missing cells. */
  function CountNaN(column: seq<Option<string>>): (n: nat)
    ensures n <= |column|
    decreases |column|
  {
    if column == [] then 0
    else CountNaN(column[..|column| - 1]) + (if column[|column| - 1].None? then 1 else 0)
  }

  /** `dropna()`: the present cells, in their order. */
  function DropNaN(column: seq<Option<string>>): (kept: seq<string>)
    ensures |kept| + CountNaN(column) == |column|
    ensures forall k :: 0 <= k < |kept| ==> Some(kept[k]) in column
    decreases |column|
  {
    if column == [] then []
    else
      var init, last := column[..|column| - 1], column[|column| - 1];
      assert column == init + [last];
      DropNaN(init) + (if last.Some? then [last.value] else [])
  }

  /** The positions of the present cells, ascending: the frame index `dropna` keeps. */
  function KeptIndices(column: seq<Option<string>>): (idx: seq<nat>)
    ensures forall k :: 0 <= k < |idx| ==> idx[k] < |column|
    decreases |column|
  {
    if column == [] then []
    else
      var n := |column| - 1;
      KeptIndices(column[..n]) + (if column[n].Some? then [n] else [])
  }

  /** The k-th kept position holds the k-th survivor. */
  lemma {:induction false} KeptIndicesSelect(column: seq<Option<string>>)
    ensures |KeptIndices(column)| == |DropNaN(column)|
    ensures forall k :: 0 <= k < |KeptIndices(column)| ==>
              column[KeptIndices(column)[k]] == Some(DropNaN(column)[k])
    decreases |column|
  {
    if column != [] {
      var n := |column| - 1;
      var init := column[..n];
      KeptIndicesSelect(init);
      var idx, kept := KeptIndices(init), DropNaN(init);
      var tailIdx := if column[n].Some? then [n] else [];
      var tailKept := if column[n].Some? then [column[n].value] else [];
      assert KeptIndices(column) == idx + tailIdx;
      assert DropNaN(column) == kept + tailKept;
      forall k | 0 <= k < |idx + tailIdx|
        ensures column[(idx + tailIdx)[k]] == Some((kept + tailKept)[k])
      {
        if k < |idx| {
          assert (idx + tailIdx)[k] == idx[k] && (kept + tailKept)[k] == kept[k];
          assert column[idx[k]] == init[idx[k]];
        }
      }
    }
  }

  /** The kept positions ascend. */
  lemma {:induction false} KeptIndicesAscend(column: seq<Option<string>>)
    ensures forall k, l :: 0 <= k < l < |KeptIndices(column)| ==>
              KeptIndices(column)[k] < KeptIndices(column)[l]
    decreases |column|
  {
    if column != [] {
      var n := |column| - 1;
      KeptIndicesAscend(column[..n]);
    }
  }

  /** A position is kept exactly when its cell is present. */
  lemma {:induction false} KeptIndicesExact(column: seq<Option<string>>)
    ensures forall i :: 0 <= i < |column| ==> (i in KeptIndices(column) <==> column[i].Some?)
    decreases |column|
  {
    if column != [] {
      var n := |column| - 1;
      var init := column[..n];
      KeptIndicesExact(init);
      var idx := KeptIndices(init);
      var tailIdx := if column[n].Some? then [n] else [];
      assert KeptIndices(column) == idx + tailIdx;
      forall i | 0 <= i < |column|
        ensures i in idx + tailIdx <==> column[i].Some?
      {
        if i < n {
          assert column[i] == init[i];
          assert i !in tailIdx;
        } else {
          assert i !in idx;
        }
      }
    }
  }

  /**
   * `dropna` keeps exactly the present cells, in their original relative
   * order: the k-th survivor is the cell at the k-th kept position, the kept
   * positions ascend, and a position is kept exactly when its cell is present.
   */
  lemma DropNaNKeepsOrder(column: seq<Option<string>>)
    ensures |KeptIndices(column)| == |DropNaN(column)|
    ensures forall k :: 0 <= k < |KeptIndices(column)| ==>
              column[KeptIndices(column)[k]] == Some(DropNaN(column)[k])
    ensures forall k, l :: 0 <= k < l < |KeptIndices(column)| ==>
              KeptIndices(column)[k] < KeptIndices(column)[l]
    ensures forall i :: 0 <= i < |column| ==> (i in KeptIndices(column) <==> column[i].Some?)
  {
    KeptIndicesSelect(column);
    KeptIndicesAscend(column);
    KeptIndicesExact(column);
  }

  /** `isna().sum()` counts the missing cells, wherever they stand. */
  lemma {:induction false} CountNaNIsNoneCount(column: seq<Option<string>>)
    ensures CountNaN(column) == multiset(column)[None]
    decreases |column|
  {
    if column != [] {
      var n := |column| - 1;
      CountNaNIsNoneCount(column[..n]);
      assert column == column[..n] + [column[n]];
    }
  }

  /** After the replacement, a cell is missing exactly when it was empty or missing. */
  lemma {:induction false} ReplacedNoneCount(column: seq<Option<string>>)
    ensures multiset(ReplaceEmptyWithNaN(column))[None] ==
            multiset(column)[None] + multiset(column)[Some("")]
    decreases |column|
  {
    if column != [] {
      var n := |column| - 1;
      ReplacedNoneCount(column[..n]);
      assert column == column[..n] + [column[n]];
      assert ReplaceEmptyWithNaN(column) ==
             ReplaceEmptyWithNaN(column[..n]) + [ReplaceCell(column[n])];
    }
  }

  /** `apply(get_sentiment)` on the surviving comments: one label per row, from its own text. */
  function LabelRows(kept: seq<string>, polarity: string -> real): (rows: seq<Row<Label>>)
    ensures |rows| == |kept|
  {
    seq(|kept|, k requires 0 <= k < |kept| => Row(kept[k], GetSentiment(kept[k], polarity)))
  }

  /** Every comment that survives the NaN replacement and `dropna` is a non-empty entry of the input. */
  lemma SurvivorsAreEntries(comments: seq<Option<string>>)
    ensures forall k :: 0 <= k < |DropNaN(ReplaceEmptyWithNaN(comments))| ==>
              DropNaN(ReplaceEmptyWithNaN(comments))[k] != "" &&
              Some(DropNaN(ReplaceEmptyWithNaN(comments))[k]) in comments
  {
    var column := ReplaceEmptyWithNaN(comments);
    var kept := DropNaN(column);
    forall k | 0 <= k < |kept|
      ensures kept[k] != "" && Some(kept[k]) in comments
    {
      var i :| 0 <= i < |column| && column[i] == Some(kept[k]);
      assert comments[i] == Some(kept[k]);
    }
  }

  /**
   * `build_sentiment_df`, with the label `get_sentiment` computes: empty
   * strings become NaN, the NaN cells are counted and dropped, and every
   * surviving comment is labelled.
   */
  function BuildSentimentDf(comments: seq<Option<string>>, polarity: string -> real): (df: Analysis<Label>)
    ensures |df.rows| + df.removed == |comments|
    ensures forall k :: 0 <= k < |df.rows| ==>
              df.rows[k].comment != "" &&
              Some(df.rows[k].comment) in comments &&
              df.rows[k].sentiment == GetSentiment(df.rows[k].comment, polarity)
  {
    var column := ReplaceEmptyWithNaN(comments);
    var kept := DropNaN(column);
    SurvivorsAreEntries(comments);
    Analysis(LabelRows(kept, polarity), CountNaN(column))
  }

  /** The positions of `comments` whose entries survive into the frame. */
  function Survivors(comments: seq<Option<string>>): seq<nat> {
    KeptIndices(ReplaceEmptyWithNaN(comments))
  }

  /**
   * The frame holds exactly the entries that are neither empty nor missing, in
   * their original relative order, each labelled from its own text; the
   * removed count is the number of empty or missing entries.
   */
  lemma BuildSentimentDfSpec(comments: seq<Option<string>>, polarity: string -> real)
    ensures |Survivors(comments)| == |BuildSentimentDf(comments, polarity).rows|
    ensures forall k :: 0 <= k < |Survivors(comments)| ==>
              Survivors(comments)[k] < |comments| &&
              comments[Survivors(comments)[k]] == Some(BuildSentimentDf(comments, polarity).rows[k].comment)
    ensures forall k, l :: 0 <= k < l < |Survivors(comments)| ==>
              Survivors(comments)[k] < Survivors(comments)[l]
    ensures forall i :: 0 <= i < |comments| ==> (i in Survivors(comments) <==> !Excluded(comments[i]))
    ensures BuildSentimentDf(comments, polarity).removed ==
            multiset(comments)[None] + multiset(comments)[Some("")]
  {
    var column := ReplaceEmptyWithNaN(comments);
    DropNaNKeepsOrder(column);
    CountNaNIsNoneCount(column);
    ReplacedNoneCount(comments);
  }

  /** With no entries at all, nothing is labelled and nothing is removed. */
  lemma BuildSentimentDfEmpty(polarity: string -> real)
    ensures BuildSentimentDf([], polarity) == Analysis([], 0)
  {
  }

  /**
   * An entry the language filter left empty and one it left without a value
   * are treated alike: both are dropped and counted.
   */
  lemma MissingAndEmptyAlike(comments: seq<Option<string>>, i: nat, polarity: string -> real)
    requires i < |comments|
    ensures BuildSentimentDf(comments[i := None], polarity) ==
            BuildSentimentDf(comments[i := Some("")], polarity)
  {
    assert ReplaceEmptyWithNaN(comments[i := None]) == ReplaceEmptyWithNaN(comments[i := Some("")]);
  }

  /**
   * `build_sentiment_df` as written: a frame built from an empty list has no
   * columns, so naming its one column raises; otherwise every row's sentiment
   * is the `None` that `get_sentiment` returns.
   */
  function BuildSentimentDfAsWritten(comments: seq<Option<string>>, polarity: string -> real):
    (r: Result<Analysis<Option<Label>>, FrameError>)
    ensures r.Failure? <==> comments == []
    ensures r.Failure? ==> r.error == ColumnLengthMismatch
    ensures r.Success? ==> |r.value.rows| + r.value.removed == |comments|
    ensures r.Success? ==> forall k :: 0 <= k < |r.value.rows| ==>
              r.value.rows[k].comment != "" &&
              Some(r.value.rows[k].comment) in comments &&
              r.value.rows[k].sentiment == None
  {
    if comments == [] then Failure(ColumnLengthMismatch)
    else
      var column := ReplaceEmptyWithNaN(comments);
      var kept := DropNaN(column);
      SurvivorsAreEntries(comments);
      Success(Analysis(seq(|kept|, k requires 0 <= k < |kept| => Row(kept[k], GetSentimentAsWritten(kept[k], polarity))),
                       CountNaN(column)))
  }

  /** As written, an empty comment list makes `build_sentiment_df` raise. */
  lemma AsWrittenRejectsEmptyInput(polarity: string -> real)
    ensures BuildSentimentDfAsWritten([], polarity) == Failure(ColumnLengthMismatch)
  {
  }

  /**
   * As written, a non-empty list gives the same rows and count as the corrected
   * frame, but no row carries a sentiment.
   */
  lemma AsWrittenSentimentIsMissing(comments: seq<Option<string>>, polarity: string -> real)
    requires comments != []
    ensures BuildSentimentDfAsWritten(comments, polarity).Success?
    ensures BuildSentimentDfAsWritten(comments, polarity).value.removed ==
            BuildSentimentDf(comments, polarity).removed
    ensures |BuildSentimentDfAsWritten(comments, polarity).value.rows| ==
            |BuildSentimentDf(comments, polarity).rows|
    ensures forall k :: 0 <= k < |BuildSentimentDf(comments, polarity).rows| ==>
              BuildSentimentDfAsWritten(comments, polarity).value.rows[k] ==
              Row(BuildSentimentDf(comments, polarity).rows[k].comment, None)
  {
  }

  // ---------------------------------------------------------------------------
  // The whole pipeline on a fetched list
  // ---------------------------------------------------------------------------

  /** Cleaning followed by the frame: the path from fetched comments to the report. */
  function AnalyzeComments(comments: seq<string>, findEmoji: string -> seq<string>,
                           detect: string -> Option<string>, polarity: string -> real): (df: Analysis<Label>)
    ensures |df.rows| + df.removed == |comments|
  {
    BuildSentimentDf(CleanSeq(comments, findEmoji, detect), polarity)
  }

  /**
   * Every row of the report is a fetched comment, in fetch order, with its
   * emoji stripped and detected as English; a comment reaches the report
   * exactly when cleaning leaves it a non-empty text, and every other comment
   * is counted as removed.
   */
  lemma AnalyzeCommentsSpec(comments: seq<string>, findEmoji: string -> seq<string>,
                            detect: string -> Option<string>, polarity: string -> real)
    ensures var df := AnalyzeComments(comments, findEmoji, detect, polarity);
            var idx := Survivors(CleanSeq(comments, findEmoji, detect));
            |idx| == |df.rows| &&
            |df.rows| + df.removed == |comments| &&
            (forall k :: 0 <= k < |idx| ==>
               idx[k] < |comments| &&
               df.rows[k].comment == StripEmoji(comments[idx[k]], findEmoji(comments[idx[k]])) &&
               detect(df.rows[k].comment) == Some(ENGLISH) &&
               df.rows[k].sentiment == GetSentiment(df.rows[k].comment, polarity)) &&
            (forall k, l :: 0 <= k < l < |idx| ==> idx[k] < idx[l]) &&
            (forall i :: 0 <= i < |comments| ==>
               (i in idx <==> !Excluded(CleanComment(comments[i], findEmoji, detect))))
  {
    var cleaned := CleanSeq(comments, findEmoji, detect);
    BuildSentimentDfSpec(cleaned, polarity);
  }
}
