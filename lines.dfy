/**
 * The line layout of `printIssue`, shared by both versions of the tool: a
 * heading, the status, then the priority, colour, target-end and comment
 * lines, each written only when its value is not empty. A rendering is the
 * sequence of `Printf` calls made, each a `Line`; `Text` gives the exact
 * characters one call prints, without its trailing new-line.
 */
module Lines {
  import Partition

  /** The seven strings `printIssue` writes, once extracted from an issue. */
  datatype Shown = Shown(
    key: string,
    summary: string,
    status: string,
    priority: string,
    color: string,
    targetEnd: string,
    comment: string)

  /** The four optional fields, in the order they are written. */
  datatype Field = Priority | Color | TargetEnd | Comment {
    function Label(): string {
      match this
      case Priority => "Priority"
      case Color => "Color"
      case TargetEnd => "Target end"
      case Comment => "Comment"
    }
  }

  /** One `Printf` call of `printIssue`. */
  datatype Line =
    | Heading(key: string, summary: string)
    | Status(status: string)
    | Labelled(field: Field, value: string)

  /** The text a line prints: the format string with its verbs filled in. */
  function Text(l: Line): string {
    match l
    case Heading(key, summary) => "- [" + key + "] " + summary
    case Status(status) => "  Status:\t " + status
    case Labelled(field, value) => "  " + field.Label() + ":\t " + value
  }

  /** The texts of a sequence of lines. */
  function Texts(ls: seq<Line>): (ts: seq<string>)
    ensures |ts| == |ls| && forall i | 0 <= i < |ls| :: ts[i] == Text(ls[i])
  {
    seq(|ls|, i requires 0 <= i < |ls| => Text(ls[i]))
  }

  /** Whether `printIssue` writes a line: labelled lines only when their value is not empty. */
  predicate IsWritten(l: Line) {
    l.Labelled? ==> |l.value| > 0
  }

  /** The lines of `ls` that are written, in order. */
  function Written(ls: seq<Line>): (ws: seq<Line>)
    ensures |ws| <= |ls|
  {
    if ls == [] then []
    else Written(ls[..|ls| - 1]) + IfWritten(ls[|ls| - 1])
  }

  /** A line alone if it is written, nothing otherwise. */
  function IfWritten(l: Line): seq<Line> {
    if IsWritten(l) then [l] else []
  }

  /** Filtering four lines, one at a time. */
  lemma WrittenFour(a: Line, b: Line, c: Line, d: Line)
    ensures Written([a, b, c, d]) == IfWritten(a) + IfWritten(b) + IfWritten(c) + IfWritten(d)
  {
    assert [a, b, c, d][..3] == [a, b, c];
    assert [a, b, c][..2] == [a, b];
    assert [a, b][..1] == [a];
    assert [a][..0] == [];
    assert Written([a]) == IfWritten(a);
    assert Written([a, b]) == IfWritten(a) + IfWritten(b);
    assert Written([a, b, c]) == IfWritten(a) + IfWritten(b) + IfWritten(c);
  }

  /** The four labelled lines in the order they are written, whether or not they are. */
  function AllFieldLines(s: Shown): seq<Line> {
    [Labelled(Priority, s.priority), Labelled(Color, s.color),
     Labelled(TargetEnd, s.targetEnd), Labelled(Comment, s.comment)]
  }

  /** What `printIssue` writes: heading, status, then the non-empty labelled lines. */
  function Render(s: Shown): seq<Line> {
    [Heading(s.key, s.summary), Status(s.status)] + Written(AllFieldLines(s))
  }

  /** A rendering, field by field. */
  lemma RenderFour(s: Shown)
    ensures Render(s) == [Heading(s.key, s.summary), Status(s.status)]
      + IfWritten(Labelled(Priority, s.priority)) + IfWritten(Labelled(Color, s.color))
      + IfWritten(Labelled(TargetEnd, s.targetEnd)) + IfWritten(Labelled(Comment, s.comment))
  {
    WrittenFour(Labelled(Priority, s.priority), Labelled(Color, s.color),
      Labelled(TargetEnd, s.targetEnd), Labelled(Comment, s.comment));
  }

  /**
   * The writes `printIssue` makes once it has extracted the strings: the
   * heading, the status, then each optional line whose value is not empty.
   */
  method Emit(s: Shown) returns (out: seq<Line>)
    ensures out == Render(s)
  {
    RenderFour(s);
    out := [Heading(s.key, s.summary)];
    out := out + [Status(s.status)];
    if |s.priority| > 0 {
      out := out + [Labelled(Priority, s.priority)];
    }
    if |s.color| > 0 {
      out := out + [Labelled(Color, s.color)];
    }
    if |s.targetEnd| > 0 {
      out := out + [Labelled(TargetEnd, s.targetEnd)];
    }
    if |s.comment| > 0 {
      out := out + [Labelled(Comment, s.comment)];
    }
  }

  /** The value each optional field shows in `s`. */
  function ValueOf(s: Shown, f: Field): string {
    match f
    case Priority => s.priority
    case Color => s.color
    case TargetEnd => s.targetEnd
    case Comment => s.comment
  }

  lemma {:induction false} WrittenMembers(ls: seq<Line>)
    ensures forall l :: l in Written(ls) <==> l in ls && IsWritten(l)
  {
    if ls != [] {
      WrittenMembers(ls[..|ls| - 1]);
      assert ls == ls[..|ls| - 1] + [ls[|ls| - 1]];
    }
  }

  lemma {:induction false} WrittenStable(ls: seq<Line>)
    ensures Partition.IsSubsequence(Written(ls), ls)
  {
    if ls != [] {
      var init, last := ls[..|ls| - 1], ls[|ls| - 1];
      WrittenStable(init);
      var ws := Written(ls);
      if IsWritten(last) {
        assert ws[..|ws| - 1] == Written(init);
      } else {
        assert ws == Written(init);
      }
    }
  }

  /** A labelled line is written for a field exactly when it shows that field's non-empty value. */
  lemma WrittenFields(s: Shown)
    ensures forall f, v :: Labelled(f, v) in Written(AllFieldLines(s)) <==> v == ValueOf(s, f) && v != ""
  {
    var all := AllFieldLines(s);
    WrittenMembers(all);
    forall f, v ensures Labelled(f, v) in all <==> v == ValueOf(s, f) {
      if v == ValueOf(s, f) {
        match f
        case Priority => assert Labelled(f, v) == all[0];
        case Color => assert Labelled(f, v) == all[1];
        case TargetEnd => assert Labelled(f, v) == all[2];
        case Comment => assert Labelled(f, v) == all[3];
      }
    }
  }

  /**
   * What a rendering holds: the heading and the status line first; then a
   * labelled line for each optional field exactly when that field is not
   * empty, with the value it shows, in the order priority, colour, target
   * end, comment.
   */
  lemma RenderShape(s: Shown)
    ensures var r := Render(s);
      && |r| >= 2
      && r[0] == Heading(s.key, s.summary)
      && r[1] == Status(s.status)
      && Partition.IsSubsequence(r[2..], AllFieldLines(s))
    ensures forall f, v :: Labelled(f, v) in Render(s) <==> v == ValueOf(s, f) && v != ""
  {
    var r := Render(s);
    var all := AllFieldLines(s);
    assert r[2..] == Written(all);
    WrittenStable(all);
    WrittenFields(s);
    assert forall l :: l in r <==> l == r[0] || l == r[1] || l in Written(all);
  }

  /**
   * The printed text of a status or labelled line fixes the line: its kind,
   * its label and its value. Only two headings can share a text.
   */
  lemma TextDetermines(l1: Line, l2: Line)
    requires !l1.Heading? || !l2.Heading?
    requires Text(l1) == Text(l2)
    ensures l1 == l2
  {
    TextKind(l1);
    TextKind(l2);
    var t := Text(l1);
    if l1.Status? && l2.Status? {
      assert l1.status == t[11..];
    } else if l1.Labelled? && l2.Labelled? {
      var a, b := l1.field.Label(), l2.field.Label();
      assert t[2] == a[0] && Text(l2)[2] == b[0];
      assert t[4] == a[2] && Text(l2)[4] == b[2];
      assert l1.field == l2.field;
      assert l1.value == t[|a| + 5..];
      assert l2.value == Text(l2)[|b| + 5..];
    }
  }

  /** The first and third characters of a text tell its kind of line. */
  lemma TextKind(l: Line)
    ensures |Text(l)| >= 3
    ensures Text(l)[0] == (if l.Heading? then '-' else ' ')
    ensures !l.Heading? ==> (Text(l)[2] == 'S' <==> l.Status?)
  {
  }

  /** Two different headings can print the same text: a key may contain "] ". */
  lemma HeadingTextAmbiguous()
    ensures Heading("A", "[B] C") != Heading("A] [B", "C")
    ensures Text(Heading("A", "[B] C")) == Text(Heading("A] [B", "C"))
  {
    assert Text(Heading("A", "[B] C")) == "- [A] [B] C";
    assert Text(Heading("A] [B", "C")) == "- [A] [B] C";
  }

  /**
   * The same shape read off the printed text: a labelled text appears
   * exactly when that field is not empty, and shows that field's value.
   */
  lemma RenderTextShape(s: Shown)
    ensures forall f, v :: Text(Labelled(f, v)) in Texts(Render(s)) <==> v == ValueOf(s, f) && v != ""
  {
    RenderShape(s);
    var r := Render(s);
    forall f, v ensures Text(Labelled(f, v)) in Texts(r) <==> v == ValueOf(s, f) && v != "" {
      if Text(Labelled(f, v)) in Texts(r) {
        var i :| 0 <= i < |r| && Texts(r)[i] == Text(Labelled(f, v));
        TextDetermines(Labelled(f, v), r[i]);
        assert Labelled(f, v) in r;
      }
      if v == ValueOf(s, f) && v != "" {
        assert Labelled(f, v) in r;
        var i :| 0 <= i < |r| && r[i] == Labelled(f, v);
        assert Texts(r)[i] == Text(Labelled(f, v));
      }
    }
  }
}
