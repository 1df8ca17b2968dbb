/**
 * The older single-file report tool. It reads the same raw records, but
 * keeps the colour as the raw string (only "Not Selected" is blanked) and
 * buckets it by an exact, case-sensitive match against "Red", "Yellow"
 * and "Green".
 */
module Legacy {
  import opened Wrappers
  import opened Raw
  import opened Text
  import opened Partition
  import Jira
  import Lines

  /** `colorRank`: the colour strings in bucket order. */
  const LegacyColorRank: seq<string> := ["Red", "Yellow", "Green"]

  /** The colour value the tracker uses for "no colour chosen". */
  const NotSelected := "Not Selected"

  /**
   * `getColor`: the "value" string of an object-shaped colour field, as it
   * is, except that "Not Selected" becomes "". Any other shape gives "".
   * An object without a string "value" makes the Go code panic, hence the
   * requires.
   */
  function GetColor(issue: RawIssue): (c: string)
    requires Jira.ColorFieldReadable(issue)
    ensures c != NotSelected
    ensures !Field(issue, Jira.ColorCustomFieldId).Map? ==> c == ""
    ensures Field(issue, Jira.ColorCustomFieldId).Map? ==>
      var v := Field(issue, Jira.ColorCustomFieldId).entries["value"].s;
      && (v != NotSelected ==> c == v)
      && (c == "" <==> v == "" || v == NotSelected)
  {
    var colorField := Field(issue, Jira.ColorCustomFieldId);
    var c := if colorField.Map? then colorField.entries["value"].s else "";
    if c == NotSelected then "" else c
  }

  /** `getPriority`: the same rule as the newer `priorityFromRaw`. */
  function GetPriority(issue: RawIssue): (p: string)
    ensures p == Jira.PriorityFromRaw(issue)
  {
    if issue.priority.None? then ""
    else if issue.priority.value == "Undefined" then ""
    else issue.priority.value
  }

  /**
   * `getCustomField`: "" for an absent or null field, otherwise the field
   * formatted with fmt's `%s` verb. A string formats as itself; `formatS`
   * stands for fmt's `%s` rendering of any other value.
   */
  function GetCustomField(issue: RawIssue, id: string, formatS: Value -> string): (r: string)
    ensures Field(issue, id) == Null ==> r == ""
    ensures Field(issue, id).Str? ==> r == Field(issue, id).s
    ensures (Field(issue, id).Map? || Field(issue, id).Other?) ==> r == formatS(Field(issue, id))
  {
    var field := Field(issue, id);
    if field == Null then ""
    else if field.Str? then field.s
    else formatS(field)
  }

  /**
   * `statusComment`: the same scan as the newer client's: the last report
   * comment wins, trimmed after its prefix, with new-lines and carriage
   * returns deleted.
   */
  method StatusComment(issue: RawIssue) returns (r: string)
    ensures r == Jira.ReportStatus(issue.comments)
    ensures '\n' !in r && '\r' !in r
  {
    if issue.comments.None? {
      return "";
    }
    var comments := issue.comments.value;
    var latestReportComment := "";
    for i := 0 to |comments|
      invariant latestReportComment == Jira.LastReport(comments[..i])
    {
      var trimmedBody := TrimSpace(comments[i]);
      if HasPrefix(trimmedBody, Jira.ReportCommentPrefix) {
        latestReportComment := TrimSpace(trimmedBody[|Jira.ReportCommentPrefix|..]);
      }
      assert comments[..i + 1][..i] == comments[..i];
    }
    assert comments[..|comments|] == comments;
    latestReportComment := RemoveAll(latestReportComment, '\n');
    r := RemoveAll(latestReportComment, '\r');
  }

  /**
   * The bucket of a colour string: its position in LegacyColorRank when it
   * is one of those three strings exactly, otherwise the trailing bucket.
   */
  function ColorBucket(color: string): (b: nat)
    ensures b <= |LegacyColorRank|
    ensures b < |LegacyColorRank| ==> LegacyColorRank[b] == color
    ensures b == |LegacyColorRank| <==> color !in LegacyColorRank
  {
    if color == "Red" then 0
    else if color == "Yellow" then 1
    else if color == "Green" then 2
    else 3
  }

  /** The match is exact: other spellings of a colour, and "", go to the trailing bucket. */
  lemma ColorBucketExamples()
    ensures ColorBucket("Red") == 0 && ColorBucket("Yellow") == 1 && ColorBucket("Green") == 2
    ensures ColorBucket("red") == 3 && ColorBucket("RED") == 3 && ColorBucket("") == 3
  {
    assert "red" != "Red" by { assert "red"[0] != "Red"[0]; }
    assert "RED" != "Red" by { assert "RED"[1] != "Red"[1]; }
  }

  function IssueBucket(issue: RawIssue): nat
    requires Jira.ColorFieldReadable(issue)
  {
    ColorBucket(GetColor(issue))
  }

  /** Every record's colour field can be read. */
  predicate AllReadable(issues: seq<RawIssue>) {
    forall k | 0 <= k < |issues| :: Jira.ColorFieldReadable(issues[k])
  }

  /**
   * The buckets of a list of records: bucket b < 3 holds exactly the
   * records whose colour string is LegacyColorRank[b], the last one exactly
   * the records with any other colour string; each bucket keeps the input
   * order, and together they are a permutation of the input.
   */
  lemma ColorBuckets(issues: seq<RawIssue>)
    requires AllReadable(issues)
    ensures forall x | x in issues :: Jira.ColorFieldReadable(x)
    ensures var groups := Buckets(issues, IssueBucket, |LegacyColorRank| + 1);
      && (forall b, x | 0 <= b < |LegacyColorRank| ::
            x in groups[b] <==> x in issues && GetColor(x) == LegacyColorRank[b])
      && (forall x :: x in groups[|LegacyColorRank|] <==> x in issues && GetColor(x) !in LegacyColorRank)
      && (forall b | 0 <= b < |groups| :: IsSubsequence(groups[b], issues))
      && multiset(Concat(groups)) == multiset(issues)
  {
    ColorBucketMembers(issues);
    var groups := Buckets(issues, IssueBucket, |LegacyColorRank| + 1);
    forall b | 0 <= b < |groups| ensures IsSubsequence(groups[b], issues) {
      SelectStable(issues, IssueBucket, b);
    }
    BucketsPermutation(issues, IssueBucket, |LegacyColorRank| + 1);
  }

  /** Which records each bucket holds. */
  lemma ColorBucketMembers(issues: seq<RawIssue>)
    requires AllReadable(issues)
    ensures forall x | x in issues :: Jira.ColorFieldReadable(x)
    ensures var groups := Buckets(issues, IssueBucket, |LegacyColorRank| + 1);
      && (forall b, x | 0 <= b < |LegacyColorRank| ::
            x in groups[b] <==> x in issues && GetColor(x) == LegacyColorRank[b])
      && (forall x :: x in groups[|LegacyColorRank|] <==> x in issues && GetColor(x) !in LegacyColorRank)
  {
    forall x | x in issues ensures Jira.ColorFieldReadable(x) {
      var k :| 0 <= k < |issues| && issues[k] == x;
    }
    forall b | 0 <= b <= |LegacyColorRank|
      ensures forall x :: x in Select(issues, IssueBucket, b) <==> x in issues && IssueBucket(x) == b
    {
      SelectMembers(issues, IssueBucket, b);
    }
  }

  /**
   * `groupIssuesByColor`: one bucket per colour string plus a trailing one,
   * filled in a single pass (ColorBuckets says what they hold).
   */
  method GroupIssuesByColor(issues: seq<RawIssue>) returns (groups: seq<seq<RawIssue>>)
    requires AllReadable(issues)
    ensures |groups| == |LegacyColorRank| + 1
    ensures forall x | x in issues :: Jira.ColorFieldReadable(x)
    ensures groups == Buckets(issues, IssueBucket, |LegacyColorRank| + 1)
  {
    forall x | x in issues ensures Jira.ColorFieldReadable(x) {
      var k :| 0 <= k < |issues| && issues[k] == x;
    }
    var issuesByColor := new seq<RawIssue>[|LegacyColorRank| + 1](_ => []);
    var colorIndex: map<string, nat> := map[];
    for i := 0 to |LegacyColorRank|
      invariant forall c :: c in colorIndex <==> c in LegacyColorRank[..i]
      invariant forall c | c in colorIndex :: colorIndex[c] < i && LegacyColorRank[colorIndex[c]] == c
    {
      colorIndex := colorIndex[LegacyColorRank[i] := i];
    }
    assert LegacyColorRank[..|LegacyColorRank|] == LegacyColorRank;
    for n := 0 to |issues|
      invariant forall b | 0 <= b < issuesByColor.Length ::
        issuesByColor[b] == Select(issues[..n], IssueBucket, b)
    {
      var color := GetColor(issues[n]);
      var i := issuesByColor.Length - 1;
      if color in colorIndex {
        i := colorIndex[color];
      }
      assert i == IssueBucket(issues[n]);
      forall b | 0 <= b < issuesByColor.Length
        ensures Select(issues[..n + 1], IssueBucket, b) ==
          Select(issues[..n], IssueBucket, b) + (if IssueBucket(issues[n]) == b then [issues[n]] else [])
      {
        SelectNext(issues, IssueBucket, n, b);
      }
      issuesByColor[i] := issuesByColor[i] + [issues[n]];
    }
    assert issues[..|issues|] == issues;
    groups := issuesByColor[..];
  }

  /** The strings `printIssue` writes for a raw record. */
  function Shown(issue: RawIssue, formatS: Value -> string): Lines.Shown
    requires Jira.ColorFieldReadable(issue)
  {
    Lines.Shown(issue.key, issue.summary, issue.status, GetPriority(issue), GetColor(issue),
      GetCustomField(issue, Jira.TargetEndDateCustomFieldId, formatS), Jira.ReportStatus(issue.comments))
  }

  /**
   * `printIssue`: heading and status always; then priority, colour, target
   * end and comment, each only when not empty (Lines.RenderShape).
   */
  method PrintIssue(issue: RawIssue, formatS: Value -> string) returns (out: seq<Lines.Line>)
    requires Jira.ColorFieldReadable(issue)
    ensures out == Lines.Render(Shown(issue, formatS))
  {
    var comment := StatusComment(issue);
    var shown := Lines.Shown(issue.key, issue.summary, issue.status, GetPriority(issue), GetColor(issue),
      GetCustomField(issue, Jira.TargetEndDateCustomFieldId, formatS), comment);
    out := Lines.Emit(shown);
  }
}
