/**
 * The older single-file tool against the newer client and report command:
 * where their colour handling, bucketing and printing agree, and where
 * they part.
 */
module Versions {
  import opened Wrappers
  import opened Raw
  import Text
  import Jira
  import Legacy
  import Wrangler
  import Lines
  import opened Partition

  /** "Not Selected" is not a colour name in any case. */
  lemma NotSelectedIsNoColor()
    ensures Jira.ParseColor(Legacy.NotSelected) == Jira.ColorNone
  {
    assert |Text.ToLower(Legacy.NotSelected)| == 12;
  }

  /** The newer colour is the parse of the older colour string. */
  lemma ColorIsParsedLegacyColor(raw: RawIssue)
    requires Jira.ColorFieldReadable(raw)
    ensures Jira.ColorFromRaw(raw) == Jira.ParseColor(Legacy.GetColor(raw))
  {
    NotSelectedIsNoColor();
  }

  /** The colour names the older tool buckets by parse to the colours the newer one buckets them as. */
  lemma RankedNamesParse()
    ensures forall b | 0 <= b < |Legacy.LegacyColorRank| ::
      Jira.ParseColor(Legacy.LegacyColorRank[b]) == Wrangler.ColorRank[b]
  {
    Jira.ParseColorName(Jira.ColorRed);
    Jira.ParseColorName(Jira.ColorYellow);
    Jira.ParseColorName(Jira.ColorGreen);
  }

  /**
   * The two versions put a record in the same bucket exactly when its
   * colour string is one of "Red", "Yellow", "Green" as written, or when
   * the newer client finds no colour in it at all.
   */
  lemma BucketsAgreeIff(raw: RawIssue)
    requires Jira.ColorFieldReadable(raw)
    ensures Legacy.IssueBucket(raw) == Wrangler.BucketIndex(Jira.ColorFromRaw(raw))
      <==> Legacy.GetColor(raw) in Legacy.LegacyColorRank || Jira.ColorFromRaw(raw) == Jira.ColorNone
  {
    ColorIsParsedLegacyColor(raw);
    RankedNamesParse();
    var c := Legacy.GetColor(raw);
    if c in Legacy.LegacyColorRank {
      var b := Legacy.IssueBucket(raw);
      assert Legacy.LegacyColorRank[b] == c;
    }
  }

  /** A record whose colour field holds "red". */
  function LowerCaseRed(): RawIssue {
    RawIssue("SDE-1", "s", "To Do", None,
      map[Jira.ColorCustomFieldId := Map(map["value" := Str("red")], "map[value:red]")], None)
  }

  /** A lower-case "red" is a red issue for the newer tool but an uncoloured one for the older. */
  lemma LowerCaseRedDiffers()
    ensures Jira.ColorFieldReadable(LowerCaseRed())
    ensures Wrangler.BucketIndex(Jira.ColorFromRaw(LowerCaseRed())) == 0
    ensures Legacy.IssueBucket(LowerCaseRed()) == 3
  {
    var raw := LowerCaseRed();
    assert Field(raw, Jira.ColorCustomFieldId).entries["value"].s == "red";
    assert Text.ToLower("red") == "red";
    assert "red" != "Red" by { assert "red"[0] != "Red"[0]; }
  }

  /**
   * The colour line shows the same text in both versions exactly when the
   * older colour string is "" or one of the three ranked names as written.
   */
  lemma ColorNamesAgreeIff(raw: RawIssue)
    requires Jira.ColorFieldReadable(raw)
    ensures Legacy.GetColor(raw) == Jira.ColorFromRaw(raw).Name()
      <==> Legacy.GetColor(raw) == "" || Legacy.GetColor(raw) in Legacy.LegacyColorRank
  {
    ColorIsParsedLegacyColor(raw);
    RankedNamesParse();
  }

  /**
   * The target-end text agrees for an absent, null or string field; for any
   * other value exactly when fmt's `%s` and its plain rendering coincide.
   */
  lemma CustomFieldAgreesIff(raw: RawIssue, id: string, formatS: Value -> string)
    ensures Legacy.GetCustomField(raw, id, formatS) == Jira.CustomStringFieldFromRaw(raw, id)
      <==> Field(raw, id) == Null || Field(raw, id).Str? || formatS(Field(raw, id)) == Field(raw, id).printed
  {
  }

  /**
   * Both versions print the same lines for a record exactly when its colour
   * line and its target-end line agree: priority and comment always do.
   */
  lemma PrintAgreesIff(raw: RawIssue, formatS: Value -> string)
    requires Jira.ColorFieldReadable(raw)
    ensures Lines.Render(Legacy.Shown(raw, formatS)) == Lines.Render(Wrangler.Shown(Jira.IssueFromRaw(raw)))
      <==> && Legacy.GetColor(raw) == Jira.ColorFromRaw(raw).Name()
           && Legacy.GetCustomField(raw, Jira.TargetEndDateCustomFieldId, formatS)
              == Jira.CustomStringFieldFromRaw(raw, Jira.TargetEndDateCustomFieldId)
  {
    var a, b := Legacy.Shown(raw, formatS), Wrangler.Shown(Jira.IssueFromRaw(raw));
    if Lines.Render(a) == Lines.Render(b) {
      Lines.RenderShape(a);
      Lines.RenderShape(b);
      ShownFromRender(a, b, Lines.Color);
      ShownFromRender(a, b, Lines.TargetEnd);
    }
  }

  /** Equal renderings show equal values for every optional field. */
  lemma ShownFromRender(a: Lines.Shown, b: Lines.Shown, f: Lines.Field)
    requires Lines.Render(a) == Lines.Render(b)
    ensures Lines.ValueOf(a, f) == Lines.ValueOf(b, f)
  {
    Lines.RenderShape(a);
    Lines.RenderShape(b);
    var va, vb := Lines.ValueOf(a, f), Lines.ValueOf(b, f);
    assert va != "" ==> Lines.Labelled(f, va) in Lines.Render(a);
    assert vb != "" ==> Lines.Labelled(f, vb) in Lines.Render(b);
  }

  /** Every record's bucket agrees between the versions (BucketsAgreeIff). */
  predicate AllBucketsAgree(raws: seq<RawIssue>)
    requires Legacy.AllReadable(raws)
  {
    forall k | 0 <= k < |raws| ::
      Legacy.GetColor(raws[k]) in Legacy.LegacyColorRank || Jira.ColorFromRaw(raws[k]) == Jira.ColorNone
  }

  /**
   * When every record's bucket agrees, the older tool's buckets, each
   * record normalised as the newer client does, are the newer tool's
   * buckets of the normalised records, in the same order.
   */
  lemma GroupingAgrees(raws: seq<RawIssue>)
    requires Legacy.AllReadable(raws) && AllBucketsAgree(raws)
    ensures forall x | x in raws :: Jira.ColorFieldReadable(x)
    ensures forall b | 0 <= b <= |Wrangler.ColorRank| ::
      && (forall x | x in Select(raws, Legacy.IssueBucket, b) :: Jira.ColorFieldReadable(x))
      && Buckets(Apply(raws, Jira.IssueFromRaw), Wrangler.IssueBucket, |Wrangler.ColorRank| + 1)[b]
         == Apply(Select(raws, Legacy.IssueBucket, b), Jira.IssueFromRaw)
  {
    forall x | x in raws
      ensures Jira.ColorFieldReadable(x)
      ensures Wrangler.IssueBucket(Jira.IssueFromRaw(x)) == Legacy.IssueBucket(x)
    {
      var k :| 0 <= k < |raws| && raws[k] == x;
      BucketsAgreeIff(x);
    }
    forall b | 0 <= b <= |Wrangler.ColorRank|
      ensures forall x | x in Select(raws, Legacy.IssueBucket, b) :: Jira.ColorFieldReadable(x)
      ensures Select(Apply(raws, Jira.IssueFromRaw), Wrangler.IssueBucket, b)
        == Apply(Select(raws, Legacy.IssueBucket, b), Jira.IssueFromRaw)
    {
      SelectApply(raws, Jira.IssueFromRaw, Legacy.IssueBucket, Wrangler.IssueBucket, b);
    }
  }
}
