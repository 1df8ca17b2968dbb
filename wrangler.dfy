/**
 * The report command: the query for one configured label, the grouping of
 * the found issues into colour buckets, and the per-issue fetch and print
 * in bucket order, against an abstract tracker client.
 */
module Wrangler {
  import opened Wrappers
  import opened Jira
  import opened Partition
  import Lines
  import Quoting
  import Config

  /** `colorRank`: the named colours in bucket order. */
  const ColorRank: seq<Color> := [ColorRed, ColorYellow, ColorGreen]

  /**
   * The bucket a colour goes to: its position in ColorRank, or the trailing
   * bucket for a colour that is not ranked (ColorNone).
   */
  function BucketIndex(c: Color): (b: nat)
    ensures b <= |ColorRank|
    ensures b < |ColorRank| ==> ColorRank[b] == c
    ensures b == |ColorRank| <==> c !in ColorRank
  {
    match c
    case ColorRed => 0
    case ColorYellow => 1
    case ColorGreen => 2
    case ColorNone => 3
  }

  function IssueBucket(i: Issue): nat {
    BucketIndex(i.color)
  }

  /** The order the report visits issues in: the buckets one after another. */
  function GroupedOrder(issues: seq<Issue>): seq<Issue> {
    Concat(Buckets(issues, IssueBucket, |ColorRank| + 1))
  }

  /**
   * The buckets of a list of issues: bucket b < 3 holds exactly the issues
   * coloured ColorRank[b], the last one exactly the ColorNone issues; each
   * bucket keeps the input order, and together they are a permutation of
   * the input.
   */
  lemma ColorBuckets(issues: seq<Issue>)
    ensures var groups := Buckets(issues, IssueBucket, |ColorRank| + 1);
      && (forall b, x | 0 <= b < |ColorRank| :: x in groups[b] <==> x in issues && x.color == ColorRank[b])
      && (forall x :: x in groups[|ColorRank|] <==> x in issues && x.color == ColorNone)
      && (forall b | 0 <= b < |groups| :: IsSubsequence(groups[b], issues))
      && multiset(Concat(groups)) == multiset(issues)
  {
    ColorBucketMembers(issues);
    var groups := Buckets(issues, IssueBucket, |ColorRank| + 1);
    forall b | 0 <= b < |groups| ensures IsSubsequence(groups[b], issues) {
      SelectStable(issues, IssueBucket, b);
    }
    BucketsPermutation(issues, IssueBucket, |ColorRank| + 1);
  }

  lemma ColorBucketMembers(issues: seq<Issue>)
    ensures var groups := Buckets(issues, IssueBucket, |ColorRank| + 1);
      && (forall b, x | 0 <= b < |ColorRank| :: x in groups[b] <==> x in issues && x.color == ColorRank[b])
      && (forall x :: x in groups[|ColorRank|] <==> x in issues && x.color == ColorNone)
  {
    forall b | 0 <= b <= |ColorRank|
      ensures forall x :: x in Select(issues, IssueBucket, b) <==> x in issues && IssueBucket(x) == b
    {
      SelectMembers(issues, IssueBucket, b);
    }
  }

  /**
   * `groupIssuesByColor`: one bucket per ranked colour plus a trailing one,
   * filled in a single pass (ColorBuckets says what they hold).
   */
  method GroupIssuesByColor(issues: seq<Issue>) returns (groups: seq<seq<Issue>>)
    ensures |groups| == |ColorRank| + 1
    ensures groups == Buckets(issues, IssueBucket, |ColorRank| + 1)
  {
    var issuesByColor := new seq<Issue>[|ColorRank| + 1](_ => []);
    var colorIndex: map<Color, nat> := map[];
    for i := 0 to |ColorRank|
      invariant forall c :: c in colorIndex <==> c in ColorRank[..i]
      invariant forall c | c in colorIndex :: colorIndex[c] < i && ColorRank[colorIndex[c]] == c
    {
      colorIndex := colorIndex[ColorRank[i] := i];
    }
    assert ColorRank[..|ColorRank|] == ColorRank;
    for n := 0 to |issues|
      invariant forall b | 0 <= b < issuesByColor.Length ::
        issuesByColor[b] == Select(issues[..n], IssueBucket, b)
    {
      var color := issues[n].color;
      var i := issuesByColor.Length - 1;
      if color in colorIndex {
        i := colorIndex[color];
      }
      assert i == IssueBucket(issues[n]);
      forall b | 0 <= b < issuesByColor.Length
        ensures Select(issues[..n + 1], IssueBucket, b) ==
          Select(issues[..n], IssueBucket, b) + (if IssueBucket(issues[n]) == b then [issues[n]] else [])
      {
        SelectNext(issues, IssueBucket, n, b);
      }
      issuesByColor[i] := issuesByColor[i] + [issues[n]];
    }
    assert issues[..|issues|] == issues;
    groups := issuesByColor[..];
  }

  const QueryPrefix := "project = \"SDE\" AND labels = "
  const QuerySuffix := " AND Status in (\"To Do\",\"In Progress\") ORDER BY priority DESC"

  /**
   * The query for one label: project SDE, the label embedded with Go's
   * `%q`, statuses "To Do" and "In Progress" only, highest priority first.
   * The label can be read back from between the fixed parts.
   */
  function Query(issueLabel: string): (q: string)
    ensures |q| >= |QueryPrefix| + |QuerySuffix|
    ensures q[..|QueryPrefix|] == QueryPrefix && q[|q| - |QuerySuffix|..] == QuerySuffix
    ensures Quoting.Unquote(q[|QueryPrefix|..|q| - |QuerySuffix|]) == Some(issueLabel)
  {
    var quoted := Quoting.Quote(issueLabel);
    var q := QueryPrefix + quoted + QuerySuffix;
    assert q[|QueryPrefix|..|q| - |QuerySuffix|] == quoted;
    Quoting.QuoteRoundTrip(issueLabel);
    q
  }

  /** The strings `printIssue` writes for a normalised issue. */
  function Shown(i: Issue): Lines.Shown {
    Lines.Shown(i.key, i.summary, i.status, i.priority, i.color.Name(), i.targetEnd, i.statusComment)
  }

  /**
   * `printIssue`: heading and status always; then priority, colour, target
   * end and comment, each only when not empty (see PrintedLines).
   */
  method PrintIssue(issue: Issue) returns (out: seq<Lines.Line>)
    ensures out == Lines.Render(Shown(issue))
  {
    out := Lines.Emit(Shown(issue));
  }

  /**
   * What is printed for an issue: the heading and status first; a colour
   * line exactly when the colour is not ColorNone, showing the colour's
   * name; priority, target-end and comment lines exactly when those are
   * not empty, showing them.
   */
  lemma PrintedLines(issue: Issue)
    ensures var out := Lines.Render(Shown(issue));
      && |out| >= 2 && out[0] == Lines.Heading(issue.key, issue.summary)
      && out[1] == Lines.Status(issue.status)
    ensures forall v :: Lines.Labelled(Lines.Color, v) in Lines.Render(Shown(issue)) <==>
      issue.color != ColorNone && v == issue.color.Name()
    ensures forall v :: Lines.Labelled(Lines.Priority, v) in Lines.Render(Shown(issue)) <==>
      v == issue.priority && v != ""
    ensures forall v :: Lines.Labelled(Lines.TargetEnd, v) in Lines.Render(Shown(issue)) <==>
      v == issue.targetEnd && v != ""
    ensures forall v :: Lines.Labelled(Lines.Comment, v) in Lines.Render(Shown(issue)) <==>
      v == issue.statusComment && v != ""
  {
    Lines.RenderShape(Shown(issue));
  }

  /** One call made on the tracker client. */
  datatype Call = Search(jql: string) | Get(key: string)

  /** What visiting some issues has produced: the lines printed, the fetches made, the error that stopped it. */
  datatype Outcome = Outcome(out: seq<Lines.Line>, fetches: seq<Call>, err: Option<string>)

  /**
   * One step of the report loop: nothing more once stopped; otherwise fetch
   * `x`, then stop with the fetch error or print the fetched issue.
   */
  function Step(prev: Outcome, x: Issue, get: string -> Result<Issue, string>): Outcome {
    if prev.err.Some? then prev
    else match get(x.key)
      case Failure(e) => Outcome(prev.out, prev.fetches + [Get(x.key)], Some(e))
      case Success(i) => Outcome(prev.out + Lines.Render(Shown(i)), prev.fetches + [Get(x.key)], None)
  }

  /** Visiting the issues of `order` one step at a time. */
  function Visit(order: seq<Issue>, get: string -> Result<Issue, string>): Outcome {
    if order == [] then Outcome([], [], None)
    else Step(Visit(order[..|order| - 1], get), order[|order| - 1], get)
  }

  /** The position of the first issue whose fetch fails, or |order| if none does. */
  function FirstFailure(order: seq<Issue>, get: string -> Result<Issue, string>): (k: nat)
    ensures k <= |order|
    ensures k < |order| ==> get(order[k].key).Failure?
  {
    if order == [] || get(order[0].key).Failure? then 0
    else 1 + FirstFailure(order[1..], get)
  }

  /** Every fetch before the first failure succeeds, and the one there fails. */
  lemma {:induction false} FirstFailureSpec(order: seq<Issue>, get: string -> Result<Issue, string>)
    ensures var k := FirstFailure(order, get);
      && (forall i | 0 <= i < k :: get(order[i].key).Success?)
      && (k < |order| ==> get(order[k].key).Failure?)
  {
    if order != [] && get(order[0].key).Success? {
      FirstFailureSpec(order[1..], get);
    }
  }

  /** The first failure is the position n when the fetches before n succeed and the one at n fails. */
  lemma {:induction false} FirstFailureAt(order: seq<Issue>, get: string -> Result<Issue, string>, n: nat)
    requires n <= |order|
    requires forall i | 0 <= i < n :: get(order[i].key).Success?
    requires n < |order| ==> get(order[n].key).Failure?
    ensures FirstFailure(order, get) == n
  {
    if n > 0 {
      assert get(order[0].key).Success?;
      var rest := order[1..];
      forall i | 0 <= i < n - 1 ensures get(rest[i].key).Success? {
        assert rest[i] == order[i + 1];
        assert get(order[i + 1].key).Success?;
      }
      if n - 1 < |rest| {
        assert rest[n - 1] == order[n];
      }
      FirstFailureAt(rest, get, n - 1);
    }
  }

  /** The lines printed for the issues of `order` whose fetch succeeds, in order. */
  function PrintAll(order: seq<Issue>, get: string -> Result<Issue, string>): seq<Lines.Line> {
    if order == [] then []
    else
      PrintAll(order[..|order| - 1], get)
        + match get(order[|order| - 1].key)
          case Success(i) => Lines.Render(Shown(i))
          case Failure(_) => []
  }

  /** One fetch call per issue of `order`, in order. */
  function FetchCalls(order: seq<Issue>): seq<Call> {
    if order == [] then [] else FetchCalls(order[..|order| - 1]) + [Get(order[|order| - 1].key)]
  }

  /** The i-th fetch is for the i-th issue. */
  lemma {:induction false} FetchCallsAt(order: seq<Issue>)
    ensures |FetchCalls(order)| == |order|
    ensures forall i | 0 <= i < |order| :: FetchCalls(order)[i] == Get(order[i].key)
  {
    if order != [] {
      FetchCallsAt(order[..|order| - 1]);
    }
  }

  /** The report has visited `done` without a fetch error, printing `out` and making `calls`. */
  ghost predicate Visited(
    done: seq<Issue>, get: string -> Result<Issue, string>, jql: string,
    out: seq<Lines.Line>, calls: seq<Call>)
  {
    && Visit(done, get).err == None
    && out == Visit(done, get).out
    && calls == [Search(jql)] + Visit(done, get).fetches
  }

  /** A successful fetch prints the issue and the visit goes on. */
  lemma VisitOk(
    done: seq<Issue>, x: Issue, get: string -> Result<Issue, string>, jql: string,
    out: seq<Lines.Line>, calls: seq<Call>)
    requires Visited(done, get, jql, out, calls)
    requires get(x.key).Success?
    ensures Visited(done + [x], get, jql, out + Lines.Render(Shown(get(x.key).value)), calls + [Get(x.key)])
  {
    assert (done + [x])[..|done|] == done;
  }

  /** A failed fetch stops the visit with its error, printing nothing for it. */
  lemma VisitFail(
    done: seq<Issue>, x: Issue, get: string -> Result<Issue, string>, jql: string,
    out: seq<Lines.Line>, calls: seq<Call>)
    requires Visited(done, get, jql, out, calls)
    requires get(x.key).Failure?
    ensures Visit(done + [x], get) == Outcome(out, Visit(done, get).fetches + [Get(x.key)], Some(get(x.key).error))
    ensures calls + [Get(x.key)] == [Search(jql)] + Visit(done + [x], get).fetches
  {
    assert (done + [x])[..|done|] == done;
  }

  /** A prefix one longer is the prefix and the next issue. */
  lemma PrefixNext(prefix: seq<Issue>, bucket: seq<Issue>, j: nat)
    requires j < |bucket|
    ensures prefix + bucket[..j + 1] == (prefix + bucket[..j]) + [bucket[j]]
  {
    assert bucket[..j + 1] == bucket[..j] + [bucket[j]];
  }

  /** Once stopped, visiting more issues changes nothing. */
  lemma {:induction false} VisitStopped(a: seq<Issue>, r: seq<Issue>, get: string -> Result<Issue, string>)
    requires Visit(a, get).err.Some?
    ensures Visit(a + r, get) == Visit(a, get)
  {
    if r == [] {
      assert a + r == a;
    } else {
      VisitStopped(a, r[..|r| - 1], get);
      assert (a + r)[..|a + r| - 1] == a + r[..|r| - 1];
    }
  }

  /** A stopped visit keeps its first failure when one more issue is visited. */
  lemma FirstFailureStays(p: seq<Issue>, x: Issue, get: string -> Result<Issue, string>)
    requires FirstFailure(p, get) < |p|
    ensures FirstFailure(p + [x], get) == FirstFailure(p, get)
  {
    var k := FirstFailure(p, get);
    FirstFailureSpec(p, get);
    forall i | 0 <= i < k ensures get((p + [x])[i].key).Success? {
      assert (p + [x])[i] == p[i];
    }
    assert (p + [x])[k] == p[k];
    FirstFailureAt(p + [x], get, k);
  }

  /** After a visit without failures, the next issue's fetch decides the first failure. */
  lemma FirstFailureNext(p: seq<Issue>, x: Issue, get: string -> Result<Issue, string>)
    requires FirstFailure(p, get) == |p|
    ensures FirstFailure(p + [x], get) == if get(x.key).Failure? then |p| else |p| + 1
  {
    FirstFailureSpec(p, get);
    forall i | 0 <= i < |p| ensures get((p + [x])[i].key).Success? {
      assert (p + [x])[i] == p[i];
    }
    if get(x.key).Failure? {
      FirstFailureAt(p + [x], get, |p|);
    } else {
      FirstFailureAt(p + [x], get, |p| + 1);
    }
  }

  /**
   * The outcome a visit of `order` should have: with no fetch error, every
   * issue printed and fetched; otherwise the issues before the first
   * failing fetch printed, the fetches up to and including that one made,
   * and its error.
   */
  function Expected(order: seq<Issue>, get: string -> Result<Issue, string>): Outcome {
    var k := FirstFailure(order, get);
    if k == |order| then Outcome(PrintAll(order, get), FetchCalls(order), None)
    else Outcome(PrintAll(order[..k], get), FetchCalls(order[..k + 1]), Some(get(order[k].key).error))
  }

  /** Visiting issues step by step produces the expected outcome. */
  lemma {:induction false} VisitMeaning(order: seq<Issue>, get: string -> Result<Issue, string>)
    ensures Visit(order, get) == Expected(order, get)
  {
    if order != [] {
      var p, x := order[..|order| - 1], order[|order| - 1];
      assert order == p + [x];
      VisitMeaning(p, get);
      var kp := FirstFailure(p, get);
      if kp < |p| {
        FirstFailureStays(p, x, get);
        assert order[..kp] == p[..kp];
        assert order[..kp + 1] == p[..kp + 1];
      } else {
        FirstFailureNext(p, x, get);
        if get(x.key).Failure? {
          assert order[..|p|] == p;
          assert order[..|p| + 1] == order;
        }
      }
    }
  }

  /** A visit stopped just after issue j of bucket b is the visit of all the buckets. */
  lemma VisitStopsInBucket(
    bs: seq<seq<Issue>>, b: nat, j: nat, done: seq<Issue>, get: string -> Result<Issue, string>)
    requires b < |bs| && j < |bs[b]|
    requires done == (Concat(bs[..b]) + bs[b][..j]) + [bs[b][j]]
    requires Visit(done, get).err.Some?
    ensures Visit(Concat(bs), get) == Visit(done, get)
  {
    ConcatSplit(bs, b, j);
    VisitStopped(done, bs[b][j + 1..] + Concat(bs[b + 1..]), get);
  }

  /**
   * `generateReport` against a client whose `SearchIssues` and `GetIssue`
   * are `search` and `get`: `out` is what is printed, `calls` the calls made
   * in order. The query error is returned before any fetch; otherwise each
   * issue is fetched in bucket order until the first fetch error, which is
   * returned with nothing printed for it or any later issue.
   */
  method GenerateReport(
    cfg: Config.ReportConfig,
    search: string -> Result<seq<Issue>, string>,
    get: string -> Result<Issue, string>)
    returns (out: seq<Lines.Line>, calls: seq<Call>, err: Option<string>)
    ensures search(Query(cfg.issueLabel)).Failure? ==>
      && calls == [Search(Query(cfg.issueLabel))]
      && out == []
      && err == Some(search(Query(cfg.issueLabel)).error)
    ensures search(Query(cfg.issueLabel)).Success? ==>
      var expected := Expected(GroupedOrder(search(Query(cfg.issueLabel)).value), get);
      && out == expected.out
      && calls == [Search(Query(cfg.issueLabel))] + expected.fetches
      && err == expected.err
  {
    var jql := Query(cfg.issueLabel);
    calls := [Search(jql)];
    out := [];
    var found := search(jql);
    if found.Failure? {
      return out, calls, Some(found.error);
    }
    var issuesByColor := GroupIssuesByColor(found.value);
    ghost var done: seq<Issue> := [];
    for b := 0 to |issuesByColor|
      invariant done == Concat(issuesByColor[..b])
      invariant Visited(done, get, jql, out, calls)
    {
      var bucket := issuesByColor[b];
      ghost var prefix := done;
      for j := 0 to |bucket|
        invariant done == prefix + bucket[..j]
        invariant Visited(done, get, jql, out, calls)
      {
        var issue := bucket[j];
        PrefixNext(prefix, bucket, j);
        var fetched := get(issue.key);
        if fetched.Failure? {
          VisitFail(done, issue, get, jql, out, calls);
          VisitStopsInBucket(issuesByColor, b, j, done + [issue], get);
          VisitMeaning(Concat(issuesByColor), get);
          return out, calls + [Get(issue.key)], Some(fetched.error);
        }
        VisitOk(done, issue, get, jql, out, calls);
        calls := calls + [Get(issue.key)];
        var lines := PrintIssue(fetched.value);
        out := out + lines;
        done := done + [issue];
      }
      assert bucket[..|bucket|] == bucket;
      ConcatNext(issuesByColor, b);
    }
    assert issuesByColor[..|issuesByColor|] == issuesByColor;
    VisitMeaning(done, get);
    err := None;
  }


  /** The rank `Less` compares. */
  function IssueRank(i: Issue): nat {
    i.color.Ord()
  }

  /** Inserts `x` before the first issue not strictly less than it. */
  function InsertByColor(x: Issue, sorted: seq<Issue>): seq<Issue> {
    if sorted == [] || !sorted[0].color.Less(x.color) then [x] + sorted
    else [sorted[0]] + InsertByColor(x, sorted[1..])
  }

  /** Stable insertion sort by `Color.Less`: issues of equal colour keep their input order. */
  function SortByColor(s: seq<Issue>): seq<Issue> {
    if s == [] then [] else InsertByColor(s[0], SortByColor(s[1..]))
  }

  lemma {:induction false} InsertAfterSmaller(x: Issue, a: seq<Issue>, b: seq<Issue>)
    requires forall y | y in a :: IssueRank(y) < IssueRank(x)
    requires forall y | y in b :: IssueRank(y) >= IssueRank(x)
    ensures InsertByColor(x, a + b) == a + [x] + b
  {
    if a == [] {
      assert a + b == b;
      if b != [] { assert b[0] in b; }
    } else {
      assert a[0] in a;
      assert (a + b)[1..] == a[1..] + b;
      InsertAfterSmaller(x, a[1..], b);
    }
  }

  /** One issue put into a list already ordered rank by rank lands at the head of its own rank. */
  lemma InsertIntoRanks(x: Issue, q0: seq<Issue>, q1: seq<Issue>, q2: seq<Issue>, q3: seq<Issue>)
    requires forall y | y in q0 :: IssueRank(y) == 0
    requires forall y | y in q1 :: IssueRank(y) == 1
    requires forall y | y in q2 :: IssueRank(y) == 2
    requires forall y | y in q3 :: IssueRank(y) == 3
    ensures var k := IssueRank(x);
      InsertByColor(x, q0 + q1 + q2 + q3) ==
        ((if k == 0 then [x] else []) + q0) + ((if k == 1 then [x] else []) + q1)
        + ((if k == 2 then [x] else []) + q2) + ((if k == 3 then [x] else []) + q3)
  {
    var k := IssueRank(x);
    Regroup4(q0, q1, q2, q3, [x]);
    if k == 0 {
      InsertAfterSmaller(x, [], q0 + q1 + q2 + q3);
    } else if k == 1 {
      InsertAfterSmaller(x, q0, q1 + q2 + q3);
    } else if k == 2 {
      InsertAfterSmaller(x, q0 + q1, q2 + q3);
    } else {
      InsertAfterSmaller(x, q0 + q1 + q2, q3);
    }
  }

  /** The regroupings InsertIntoRanks needs, one per rank `m` is inserted at. */
  lemma Regroup4<T>(q0: seq<T>, q1: seq<T>, q2: seq<T>, q3: seq<T>, m: seq<T>)
    ensures q0 + q1 + q2 + q3 == q0 + (q1 + q2 + q3) == (q0 + q1) + (q2 + q3)
    ensures (m + q0) + ([] + q1) + ([] + q2) + ([] + q3) == [] + m + (q0 + q1 + q2 + q3)
    ensures ([] + q0) + (m + q1) + ([] + q2) + ([] + q3) == q0 + m + (q1 + q2 + q3)
    ensures ([] + q0) + ([] + q1) + (m + q2) + ([] + q3) == (q0 + q1) + m + (q2 + q3)
    ensures ([] + q0) + ([] + q1) + ([] + q2) + (m + q3) == (q0 + q1 + q2) + m + q3
  {
  }

  /** The stable sort by `Less` lists the issues rank by rank, each rank in input order. */
  lemma {:induction false} SortByColorByRank(s: seq<Issue>)
    ensures SortByColor(s) ==
      Select(s, IssueRank, 0) + Select(s, IssueRank, 1) + Select(s, IssueRank, 2) + Select(s, IssueRank, 3)
  {
    if s != [] {
      var x, t := s[0], s[1..];
      assert s == [x] + t;
      SortByColorByRank(t);
      SelectCons(x, t, IssueRank, 0);
      SelectCons(x, t, IssueRank, 1);
      SelectCons(x, t, IssueRank, 2);
      SelectCons(x, t, IssueRank, 3);
      SelectMembers(t, IssueRank, 0);
      SelectMembers(t, IssueRank, 1);
      SelectMembers(t, IssueRank, 2);
      SelectMembers(t, IssueRank, 3);
      InsertIntoRanks(x, Select(t, IssueRank, 0), Select(t, IssueRank, 1),
        Select(t, IssueRank, 2), Select(t, IssueRank, 3));
    }
  }

  /** The report's visiting order is the ranked colours first, then ColorNone. */
  lemma GroupedOrderByRank(s: seq<Issue>)
    ensures GroupedOrder(s) ==
      Select(s, IssueRank, 1) + Select(s, IssueRank, 2) + Select(s, IssueRank, 3) + Select(s, IssueRank, 0)
  {
    var g := Buckets(s, IssueBucket, 4);
    Concat4(g);
    SelectSame(s, IssueBucket, 0, IssueRank, 1);
    SelectSame(s, IssueBucket, 1, IssueRank, 2);
    SelectSame(s, IssueBucket, 2, IssueRank, 3);
    SelectSame(s, IssueBucket, 3, IssueRank, 0);
  }

  /** No issue is ColorNone exactly when the rank-0 selection is empty. */
  lemma NoneRankEmpty(s: seq<Issue>)
    ensures Select(s, IssueRank, 0) == [] <==> forall x | x in s :: x.color != ColorNone
  {
    var none := Select(s, IssueRank, 0);
    SelectMembers(s, IssueRank, 0);
    if none != [] {
      assert none[0] in none;
    }
  }

  /** Every issue is ColorNone exactly when the selections of ranks 1 to 3 are empty. */
  lemma NamedRanksEmpty(s: seq<Issue>)
    ensures Select(s, IssueRank, 1) + Select(s, IssueRank, 2) + Select(s, IssueRank, 3) == [] <==>
      forall x | x in s :: x.color == ColorNone
  {
    var named := Select(s, IssueRank, 1) + Select(s, IssueRank, 2) + Select(s, IssueRank, 3);
    SelectMembers(s, IssueRank, 1);
    SelectMembers(s, IssueRank, 2);
    SelectMembers(s, IssueRank, 3);
    if named != [] {
      assert named[0] in named;
    }
  }

  /** The first ColorNone issue has rank 0; the first issue of any other colour does not. */
  lemma HeadRanks(s: seq<Issue>)
    ensures var none := Select(s, IssueRank, 0);
      none != [] ==> IssueRank(none[0]) == 0
    ensures var named := Select(s, IssueRank, 1) + Select(s, IssueRank, 2) + Select(s, IssueRank, 3);
      named != [] ==> IssueRank(named[0]) != 0
  {
    var none := Select(s, IssueRank, 0);
    var named := Select(s, IssueRank, 1) + Select(s, IssueRank, 2) + Select(s, IssueRank, 3);
    SelectMembers(s, IssueRank, 0);
    SelectMembers(s, IssueRank, 1);
    SelectMembers(s, IssueRank, 2);
    SelectMembers(s, IssueRank, 3);
    if none != [] {
      assert none[0] in none;
    }
    if named != [] {
      assert named[0] in named;
    }
  }

  /**
   * Bucket order and the stable `Less` sort agree exactly when no issue is
   * ColorNone or every issue is: buckets put ColorNone last, `Less` first.
   */
  lemma GroupingMatchesSortIff(s: seq<Issue>)
    ensures GroupedOrder(s) == SortByColor(s) <==>
      (forall x | x in s :: x.color != ColorNone) || (forall x | x in s :: x.color == ColorNone)
  {
    var none := Select(s, IssueRank, 0);
    var named := Select(s, IssueRank, 1) + Select(s, IssueRank, 2) + Select(s, IssueRank, 3);
    GroupedOrderByRank(s);
    SortByColorByRank(s);
    assert SortByColor(s) == none + named;
    NoneRankEmpty(s);
    NamedRanksEmpty(s);
    HeadRanks(s);
    SwapIff(named, none);
  }
}
