/**
 * The tracker client's classification and field extraction: the colour
 * enumeration and its order, the normalisation of one raw record into an
 * `Issue`, and the order-preserving conversion of a search result.
 */
module Jira {
  import opened Wrappers
  import opened Text
  import opened Raw

  const ColorCustomFieldId := "customfield_12320845"
  const TargetEndDateCustomFieldId := "customfield_12313942"
  const ReportCommentPrefix := "[report]"

  /** The four colour constants; `Name` is the Go string each one is. */
  datatype Color = ColorNone | ColorRed | ColorYellow | ColorGreen {

    function Name(): string {
      match this
      case ColorNone => ""
      case ColorRed => "Red"
      case ColorYellow => "Yellow"
      case ColorGreen => "Green"
    }

    /** The rank table `_colorOrd`. */
    function Ord(): nat {
      match this
      case ColorNone => 0
      case ColorRed => 1
      case ColorYellow => 2
      case ColorGreen => 3
    }

    predicate Less(other: Color) {
      Ord() < other.Ord()
    }
  }

  /** The normalised issue. */
  datatype Issue = Issue(
    key: string,
    color: Color,
    priority: string,
    status: string,
    statusComment: string,
    summary: string,
    targetEnd: string)

  /**
   * `ParseColor`: the lower-cased input must be exactly "red", "yellow" or
   * "green"; anything else is ColorNone.
   */
  function ParseColor(raw: string): (c: Color)
    ensures c == ColorRed <==> ToLower(raw) == "red"
    ensures c == ColorYellow <==> ToLower(raw) == "yellow"
    ensures c == ColorGreen <==> ToLower(raw) == "green"
  {
    var lower := ToLower(raw);
    if lower == "red" then ColorRed
    else if lower == "yellow" then ColorYellow
    else if lower == "green" then ColorGreen
    else ColorNone
  }

  /** Parsing a colour's own name gives the colour back, ColorNone included. */
  lemma ParseColorName(c: Color)
    ensures ParseColor(c.Name()) == c
  {
    var n := c.Name();
    if c == ColorRed { assert ToLower(n) == "red"; }
    else if c == ColorYellow { assert ToLower(n) == "yellow"; }
    else if c == ColorGreen { assert ToLower(n) == "green"; }
    else { assert ToLower(n) == ""; }
  }

  /** Case is ignored: inputs equal up to ASCII case parse alike. */
  lemma ParseColorIgnoresCase(a: string, b: string)
    requires ToLower(a) == ToLower(b)
    ensures ParseColor(a) == ParseColor(b)
  {
  }

  /** Any white space, leading, trailing or inside, makes the colour ColorNone. */
  lemma ParseColorRejectsSpace(raw: string, i: nat)
    requires i < |raw| && IsSpace(raw[i])
    ensures ParseColor(raw) == ColorNone
  {
    var lower := ToLower(raw);
    assert lower[i] == raw[i];
    assert IsSpace(lower[i]);
    assert lower != "red" && lower != "yellow" && lower != "green" by {
      assert forall k :: 0 <= k < |"red"| ==> !IsSpace("red"[k]);
      assert forall k :: 0 <= k < |"yellow"| ==> !IsSpace("yellow"[k]);
      assert forall k :: 0 <= k < |"green"| ==> !IsSpace("green"[k]);
    }
  }

  lemma ParseColorExamples()
    ensures ParseColor("Red") == ColorRed && ParseColor("RED") == ColorRed && ParseColor("red") == ColorRed
    ensures ParseColor("Green") == ColorGreen && ParseColor("yellow") == ColorYellow
    ensures ParseColor("") == ColorNone && ParseColor(" red ") == ColorNone
  {
    assert ToLower("RED") == "red";
    assert ToLower("Red") == "red";
    assert ToLower("Green") == "green";
    ParseColorRejectsSpace(" red ", 0);
  }

  /**
   * `Less` is a strict total order on the four colours, with
   * ColorNone < ColorRed < ColorYellow < ColorGreen.
   */
  lemma LessIsStrictTotalOrder()
    ensures forall a: Color :: !a.Less(a)
    ensures forall a: Color, b: Color, c: Color :: a.Less(b) && b.Less(c) ==> a.Less(c)
    ensures forall a: Color, b: Color :: a != b ==> (a.Less(b) <==> !b.Less(a))
    ensures ColorNone.Less(ColorRed) && ColorRed.Less(ColorYellow) && ColorYellow.Less(ColorGreen)
  {
  }

  /** `priorityFromRaw`: no priority and the "Undefined" sentinel both give "". */
  function PriorityFromRaw(raw: RawIssue): (p: string)
    ensures raw.priority.None? ==> p == ""
    ensures raw.priority == Some("Undefined") ==> p == ""
    ensures raw.priority.Some? && raw.priority.value != "Undefined" ==> p == raw.priority.value
    ensures p != "Undefined"
  {
    match raw.priority
    case None => ""
    case Some(name) => if name == "Undefined" then "" else name
  }

  /** The colour field has a shape `colorFromRaw` can read without panicking. */
  predicate ColorFieldReadable(raw: RawIssue) {
    HasStringValue(Field(raw, ColorCustomFieldId))
  }

  /**
   * `colorFromRaw`: an absent field or one that is not an object gives
   * ColorNone; an object gives the parse of its "value" string. An object
   * without a string "value" makes the Go code panic, hence the requires.
   */
  function ColorFromRaw(raw: RawIssue): (c: Color)
    requires ColorFieldReadable(raw)
    ensures !Field(raw, ColorCustomFieldId).Map? ==> c == ColorNone
    ensures Field(raw, ColorCustomFieldId).Map? ==>
      c == ParseColor(Field(raw, ColorCustomFieldId).entries["value"].s)
  {
    var field := Field(raw, ColorCustomFieldId);
    var text := if field.Map? then field.entries["value"].s else "";
    ParseColor(text)
  }

  /**
   * `customStringFieldFromRaw`: "" for an absent or null field, the string
   * itself for a string field, fmt's rendering for any other value.
   */
  function CustomStringFieldFromRaw(raw: RawIssue, id: string): (r: string)
    ensures Field(raw, id) == Null ==> r == ""
    ensures Field(raw, id).Str? ==> r == Field(raw, id).s
    ensures (Field(raw, id).Map? || Field(raw, id).Other?) ==> r == Field(raw, id).printed
  {
    match Field(raw, id)
    case Null => ""
    case Str(s) => s
    case Map(_, printed) => printed
    case Other(printed) => printed
  }

  /** A comment is a report comment when its trimmed body starts with "[report]". */
  predicate IsReportComment(body: string) {
    HasPrefix(TrimSpace(body), ReportCommentPrefix)
  }

  /** The text a report comment contributes: after the prefix, trimmed. */
  function Payload(body: string): string
    requires IsReportComment(body)
  {
    TrimSpace(TrimSpace(body)[|ReportCommentPrefix|..])
  }

  /** The payload of the last report comment, or "" when there is none. */
  function LastReport(comments: seq<string>): string {
    if comments == [] then ""
    else if IsReportComment(comments[|comments| - 1]) then Payload(comments[|comments| - 1])
    else LastReport(comments[..|comments| - 1])
  }

  /** Every new-line and carriage return deleted. */
  function OneLine(s: string): (r: string)
    ensures '\n' !in r && '\r' !in r
    ensures '\n' !in s && '\r' !in s ==> r == s
  {
    RemoveAll(RemoveAll(s, '\n'), '\r')
  }

  /** Every character other than a line break is kept as many times as it occurs. */
  lemma OneLineCount(s: string)
    ensures multiset(OneLine(s)) == multiset(s)['\n' := 0]['\r' := 0]
  {
    RemoveAllCount(s, '\n');
    RemoveAllCount(RemoveAll(s, '\n'), '\r');
  }

  /**
   * The other characters keep their order: OneLine works piece by piece,
   * and a single character is dropped exactly when it is a line break.
   */
  lemma OneLineKeepsOrder(a: string, b: string, c: char)
    ensures OneLine(a + b) == OneLine(a) + OneLine(b)
    ensures OneLine([c]) == if c == '\n' || c == '\r' then [] else [c]
  {
    RemoveAllAppend(a, b, '\n');
    RemoveAllAppend(RemoveAll(a, '\n'), RemoveAll(b, '\n'), '\r');
    assert [c][1..] == [];
  }

  /** The status comment of a record whose comment container is `comments`. */
  function ReportStatus(comments: Option<seq<string>>): string {
    match comments
    case None => ""
    case Some(cs) => OneLine(LastReport(cs))
  }

  /** Last match wins: the result is the payload of the last report comment, however empty. */
  lemma {:induction false} LastReportWins(cs: seq<string>, j: nat)
    requires j < |cs| && IsReportComment(cs[j])
    requires forall k :: j < k < |cs| ==> !IsReportComment(cs[k])
    ensures LastReport(cs) == Payload(cs[j])
  {
    if j < |cs| - 1 {
      var t := cs[..|cs| - 1];
      assert LastReport(cs) == LastReport(t) by { assert !IsReportComment(cs[|cs| - 1]); }
      forall k | j < k < |t| ensures !IsReportComment(t[k]) { assert t[k] == cs[k]; }
      LastReportWins(t, j);
    }
  }

  /** Without any report comment the result is "". */
  lemma {:induction false} LastReportNone(cs: seq<string>)
    requires forall k :: 0 <= k < |cs| ==> !IsReportComment(cs[k])
    ensures LastReport(cs) == ""
  {
    if cs != [] {
      var t := cs[..|cs| - 1];
      assert forall k :: 0 <= k < |t| ==> t[k] == cs[k];
      LastReportNone(t);
    }
  }

  /** The worked example's trailing cut: a space, a carriage return and a new-line. */
  lemma ExampleTrimRight()
    ensures TrimRight("[report]  second \r\n") == "[report]  second"
  {
    assert "[report]  second \r\n"[..18] == "[report]  second \r";
    assert "[report]  second \r"[..17] == "[report]  second ";
    assert "[report]  second "[..16] == "[report]  second";
  }

  /** The worked example's leading cuts: none before the prefix, one space at a time after it. */
  lemma ExampleNoLeadingSpace() ensures TrimLeft("[report]  second \r\n") == "[report]  second \r\n" { }
  lemma ExampleFirstSpace() ensures TrimLeft("  second") == TrimLeft(" second") { assert "  second"[1..] == " second"; }
  lemma ExampleSecondSpace() ensures TrimLeft(" second") == TrimLeft("second") { assert " second"[1..] == "second"; }
  lemma ExampleNoSpace() ensures TrimLeft("second") == "second" && TrimRight("second") == "second" { }

  lemma ExamplePayload()
    ensures IsReportComment("[report]  second \r\n") && Payload("[report]  second \r\n") == "second"
  {
    ExampleNoLeadingSpace();
    ExampleTrimRight();
    ExampleFirstSpace();
    ExampleSecondSpace();
    ExampleNoSpace();
    assert "[report]  second"[..8] == ReportCommentPrefix && "[report]  second"[8..] == "  second";
  }

  lemma ExampleOneLine() ensures OneLine("second") == "second" {
    assert '\n' !in "second" && '\r' !in "second";
  }

  /** The worked example: the last of two report comments wins, trimmed and on one line. */
  lemma ReportStatusExample()
    ensures ReportStatus(Some(["[report] first", "x", "[report]  second \r\n"])) == "second"
  {
    var cs := ["[report] first", "x", "[report]  second \r\n"];
    ExamplePayload();
    LastReportWins(cs, 2);
    ExampleOneLine();
  }

  /**
   * `statusCommentFromRaw`: scans the comments in order, each report comment
   * replacing the one before, then deletes new-lines and carriage returns.
   */
  method StatusCommentFromRaw(issue: RawIssue) returns (r: string)
    ensures r == ReportStatus(issue.comments)
    ensures '\n' !in r && '\r' !in r
  {
    if issue.comments.None? {
      return "";
    }
    var comments := issue.comments.value;
    var latestReportComment := "";
    for i := 0 to |comments|
      invariant latestReportComment == LastReport(comments[..i])
    {
      var trimmedBody := TrimSpace(comments[i]);
      if HasPrefix(trimmedBody, ReportCommentPrefix) {
        latestReportComment := TrimSpace(trimmedBody[|ReportCommentPrefix|..]);
      }
      assert comments[..i + 1][..i] == comments[..i];
    }
    assert comments[..|comments|] == comments;
    latestReportComment := RemoveAll(latestReportComment, '\n');
    r := RemoveAll(latestReportComment, '\r');
  }

  /**
   * `issueFromRaw`: key, status and summary are copied verbatim; the other
   * fields are the normalised ones.
   */
  function IssueFromRaw(raw: RawIssue): (i: Issue)
    requires ColorFieldReadable(raw)
    ensures i.key == raw.key && i.status == raw.status && i.summary == raw.summary
    ensures i.color == ColorFromRaw(raw) && i.priority == PriorityFromRaw(raw)
    ensures i.statusComment == ReportStatus(raw.comments)
    ensures i.targetEnd == CustomStringFieldFromRaw(raw, TargetEndDateCustomFieldId)
  {
    Issue(
      raw.key,
      ColorFromRaw(raw),
      PriorityFromRaw(raw),
      raw.status,
      ReportStatus(raw.comments),
      raw.summary,
      CustomStringFieldFromRaw(raw, TargetEndDateCustomFieldId))
  }

  /**
   * A record lacking the colour field, the target-end field and comments
   * still normalises, to ColorNone, "" and "".
   */
  lemma MissingFieldsDefault(raw: RawIssue)
    requires ColorCustomFieldId !in raw.unknowns && TargetEndDateCustomFieldId !in raw.unknowns
    requires raw.comments.None?
    ensures ColorFieldReadable(raw)
    ensures var i := IssueFromRaw(raw); i.color == ColorNone && i.targetEnd == "" && i.statusComment == ""
  {
  }

  /** `Client.GetIssue`: a fetch error is wrapped, a fetched record normalised. */
  function GetIssue(fetch: string -> Result<RawIssue, string>, key: string): (r: Result<Issue, string>)
    requires fetch(key).Success? ==> ColorFieldReadable(fetch(key).value)
    ensures fetch(key).Failure? ==> r == Failure("getting issue: " + fetch(key).error)
    ensures fetch(key).Success? ==> r == Success(IssueFromRaw(fetch(key).value))
  {
    match fetch(key)
    case Failure(e) => Failure("getting issue: " + e)
    case Success(raw) => Success(IssueFromRaw(raw))
  }

  /**
   * `Client.SearchIssues`: a query error is wrapped; otherwise exactly one
   * issue per raw result, in the same order.
   */
  method SearchIssues(search: string -> Result<seq<RawIssue>, string>, jql: string)
    returns (r: Result<seq<Issue>, string>)
    requires search(jql).Success? ==> forall raw | raw in search(jql).value :: ColorFieldReadable(raw)
    ensures search(jql).Failure? ==> r == Failure("querying JIRA for issues: " + search(jql).error)
    ensures search(jql).Success? ==> r.Success? && |r.value| == |search(jql).value|
    ensures search(jql).Success? ==>
      forall k :: 0 <= k < |r.value| ==> r.value[k] == IssueFromRaw(search(jql).value[k])
  {
    var found := search(jql);
    if found.Failure? {
      return Failure("querying JIRA for issues: " + found.error);
    }
    var issues := found.value;
    forall k | 0 <= k < |issues| ensures ColorFieldReadable(issues[k]) {
      assert issues[k] in found.value;
    }
    var res: seq<Issue> := [];
    for n := 0 to |issues|
      invariant |res| == n
      invariant forall k | 0 <= k < n :: res[k] == IssueFromRaw(issues[k])
    {
      res := res + [IssueFromRaw(issues[n])];
    }
    return Success(res);
  }
}
