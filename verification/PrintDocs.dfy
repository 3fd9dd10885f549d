/** Layout documents: what they say in one line, and how the layout breaks them without changing what they say. */
module PrintDocs {
  const MAX_WIDTH: nat := 80

  datatype Fmt = Str(t: string) | Compose(fs: seq<Fmt>) | Indent(i: nat, f: Fmt) | Group(f: Fmt) | LineBreak

  // ----- the text in one line -----

  /** The document with each line break as a space. */
  ghost function FlatText(f: Fmt): string {
    match f
    case Str(t) => t
    case Compose(fs) => FlatTexts(fs)
    case Indent(_, g) => FlatText(g)
    case Group(g) => FlatText(g)
    case LineBreak => " "
  }

  ghost function FlatTexts(fs: seq<Fmt>): string {
    if fs == [] then "" else FlatText(fs[0]) + FlatTexts(fs[1..])
  }

  lemma {:induction false} FlatTextsAppend(fs: seq<Fmt>, gs: seq<Fmt>)
    ensures FlatTexts(fs + gs) == FlatTexts(fs) + FlatTexts(gs)
  {
    if fs == [] {
      assert fs + gs == gs;
    } else {
      FlatTextsAppend(fs[1..], gs);
      assert (fs + gs)[1..] == fs[1..] + gs && (fs + gs)[0] == fs[0];
    }
  }

  function FlatWidth(f: Fmt): nat {
    match f
    case Str(t) => |t|
    case Compose(fs) => FlatWidths(fs)
    case Indent(_, g) => FlatWidth(g)
    case Group(g) => FlatWidth(g)
    case LineBreak => 1
  }

  function FlatWidths(fs: seq<Fmt>): nat {
    if fs == [] then 0 else FlatWidth(fs[0]) + FlatWidths(fs[1..])
  }

  /** The flat width is the length of the text in one line. */
  lemma {:induction false} FlatWidthIsLength(f: Fmt)
    ensures FlatWidth(f) == |FlatText(f)|
  {
    match f
    case Compose(fs) => FlatWidthsAreLength(fs);
    case Indent(_, g) => FlatWidthIsLength(g);
    case Group(g) => FlatWidthIsLength(g);
    case _ =>
  }

  lemma {:induction false} FlatWidthsAreLength(fs: seq<Fmt>)
    ensures FlatWidths(fs) == |FlatTexts(fs)|
  {
    if fs != [] {
      FlatWidthIsLength(fs[0]);
      FlatWidthsAreLength(fs[1..]);
    }
  }

  // ----- the documents the printer builds -----

  /** The items, every one on a line of its own when not flat. */
  function Lines(items: seq<Fmt>): seq<Fmt> {
    if items == [] then [] else [LineBreak, items[0]] + Lines(items[1..])
  }

  function Seq(items: seq<Fmt>): Fmt {
    Compose(Lines(items))
  }

  function Seq1(items: seq<Fmt>, header: string): Fmt {
    if items == [] then Compose([Str("("), Str(header), Str(")")])
    else
      Group(Compose([Str("("), Str(header),
                     Indent(|header| + 2, Compose([Str(" "), items[0], Seq(items[1..]), Str(")")]))]))
  }

  function Seq5(items: seq<Fmt>): Fmt {
    if items == [] then Compose([Str("("), Str(")")])
    else
      Group(Compose([Indent(1, Compose([Str("("), items[0]])), Indent(1, Compose([Seq(items[1..]), Str(")")]))]))
  }

  /** The texts, separated by spaces. */
  ghost function Spaced(ts: seq<string>): string {
    if ts == [] then "" else if |ts| == 1 then ts[0] else ts[0] + " " + Spaced(ts[1..])
  }

  ghost function Texts(items: seq<Fmt>): (ts: seq<string>)
    ensures |ts| == |items| && forall i :: 0 <= i < |items| ==> ts[i] == FlatText(items[i])
  {
    seq(|items|, i requires 0 <= i < |items| => FlatText(items[i]))
  }

  lemma {:induction false} LinesText(items: seq<Fmt>)
    ensures FlatTexts(Lines(items)) == if items == [] then "" else " " + Spaced(Texts(items))
  {
    if items != [] {
      LinesText(items[1..]);
      var two := [LineBreak, items[0]];
      FlatTextsAppend(two, Lines(items[1..]));
      TwoTexts(LineBreak, items[0]);
      assert Texts(items)[1..] == Texts(items[1..]);
    }
  }

  lemma {:induction false} TwoTexts(f: Fmt, g: Fmt)
    ensures FlatTexts([f, g]) == FlatText(f) + FlatText(g)
  {
    assert [f, g][1..] == [g] && [g][1..] == [];
    assert FlatTexts([g]) == FlatText(g) + FlatTexts([]);
  }

  lemma {:induction false} ThreeTexts(f: Fmt, g: Fmt, h: Fmt)
    ensures FlatTexts([f, g, h]) == FlatText(f) + FlatText(g) + FlatText(h)
  {
    assert [f, g, h][1..] == [g, h];
    TwoTexts(g, h);
  }

  lemma {:induction false} FourTexts(f: Fmt, g: Fmt, h: Fmt, k: Fmt)
    ensures FlatTexts([f, g, h, k]) == FlatText(f) + FlatText(g) + FlatText(h) + FlatText(k)
  {
    assert [f, g, h, k][1..] == [g, h, k];
    ThreeTexts(g, h, k);
  }

  lemma {:induction false} SpacedHead(items: seq<Fmt>)
    requires items != []
    ensures Spaced(Texts(items)) == FlatText(items[0]) + FlatTexts(Lines(items[1..]))
  {
    LinesText(items[1..]);
    assert Texts(items)[1..] == Texts(items[1..]);
  }

  lemma {:induction false} Seq1Text(items: seq<Fmt>, header: string)
    ensures FlatText(Seq1(items, header)) == "(" + header + (if items == [] then "" else " " + Spaced(Texts(items))) + ")"
  {
    if items == [] {
      ThreeTexts(Str("("), Str(header), Str(")"));
      return;
    }
    Seq1Items(items, header);
    Regroup("(" + header, " ", Spaced(Texts(items)));
  }

  lemma {:induction false} Seq1Items(items: seq<Fmt>, header: string)
    requires items != []
    ensures FlatText(Seq1(items, header)) == "(" + header + " " + Spaced(Texts(items)) + ")"
  {
    var body := Compose([Str(" "), items[0], Seq(items[1..]), Str(")")]);
    FourTexts(Str(" "), items[0], Seq(items[1..]), Str(")"));
    ThreeTexts(Str("("), Str(header), Indent(|header| + 2, body));
    SpacedHead(items);
  }

  lemma {:induction false} Seq5Text(items: seq<Fmt>)
    ensures FlatText(Seq5(items)) == "(" + Spaced(Texts(items)) + ")"
  {
    if items == [] {
      TwoTexts(Str("("), Str(")"));
    } else {
      var first, rest := Compose([Str("("), items[0]]), Compose([Seq(items[1..]), Str(")")]);
      TwoTexts(Str("("), items[0]);
      TwoTexts(Seq(items[1..]), Str(")"));
      TwoTexts(Indent(1, first), Indent(1, rest));
      SpacedHead(items);
    }
  }

  // ----- the layout -----

  function Spaces(n: nat): string {
    if n == 0 then "" else Spaces(n - 1) + " "
  }

  predicate Fits(f: Fmt, flat: bool, pos: nat) {
    flat || (pos < MAX_WIDTH && FlatWidth(f) <= MAX_WIDTH - pos)
  }

  /** What the document prints from column `pos` on, and the column after it. */
  ghost function Lay(f: Fmt, ind: nat, flat: bool, pos: nat): (string, nat) {
    match f
    case Str(t) => (t, pos + |t|)
    case Compose(fs) => LayAll(fs, ind, flat, pos)
    case Indent(i, g) => Lay(g, ind + i, flat, pos)
    case Group(g) => Lay(g, ind, Fits(g, flat, pos), pos)
    case LineBreak => if flat then (" ", pos + 1) else ("\n" + Spaces(ind), ind)
  }

  ghost function LayAll(fs: seq<Fmt>, ind: nat, flat: bool, pos: nat): (string, nat) {
    if fs == [] then ("", pos)
    else
      var a := Lay(fs[0], ind, flat, pos);
      var b := LayAll(fs[1..], ind, flat, a.1);
      (a.0 + b.0, b.1)
  }

  type Task = (Fmt, nat, bool)

  /** What the work list prints, its last entry first. */
  ghost function LayTasks(todo: seq<Task>, pos: nat): (string, nat)
    decreases |todo|
  {
    if todo == [] then ("", pos)
    else
      var (f, ind, flat) := todo[|todo| - 1];
      var a := Lay(f, ind, flat, pos);
      var b := LayTasks(todo[..|todo| - 1], a.1);
      (a.0 + b.0, b.1)
  }

  function Size(f: Fmt): (n: nat)
    ensures n >= 1
  {
    match f
    case Compose(fs) => 1 + Sizes(fs)
    case Indent(_, g) => 1 + Size(g)
    case Group(g) => 1 + Size(g)
    case _ => 1
  }

  function Sizes(fs: seq<Fmt>): nat {
    if fs == [] then 0 else Size(fs[0]) + Sizes(fs[1..])
  }

  ghost function TaskSizes(todo: seq<Task>): nat {
    if todo == [] then 0 else TaskSizes(todo[..|todo| - 1]) + Size(todo[|todo| - 1].0)
  }

  /** The elements as tasks, the first one last. */
  function Reversed(fs: seq<Fmt>, ind: nat, flat: bool): seq<Task> {
    if fs == [] then [] else Reversed(fs[1..], ind, flat) + [(fs[0], ind, flat)]
  }

  lemma {:induction false} ReversedLays(rest: seq<Task>, fs: seq<Fmt>, ind: nat, flat: bool, pos: nat)
    ensures var a := LayAll(fs, ind, flat, pos); var b := LayTasks(rest, a.1);
      LayTasks(rest + Reversed(fs, ind, flat), pos) == (a.0 + b.0, b.1)
    ensures TaskSizes(rest + Reversed(fs, ind, flat)) == TaskSizes(rest) + Sizes(fs)
    decreases |fs|
  {
    if fs == [] {
      assert rest + Reversed(fs, ind, flat) == rest;
      assert "" + LayTasks(rest, pos).0 == LayTasks(rest, pos).0;
    } else {
      var all := rest + Reversed(fs, ind, flat);
      assert all == (rest + Reversed(fs[1..], ind, flat)) + [(fs[0], ind, flat)];
      assert all[..|all| - 1] == rest + Reversed(fs[1..], ind, flat);
      var a := Lay(fs[0], ind, flat, pos);
      ReversedLays(rest, fs[1..], ind, flat, a.1);
      var b := LayAll(fs[1..], ind, flat, a.1);
      Regroup(a.0, b.0, LayTasks(rest, b.1).0);
    }
  }

  lemma {:induction false} Regroup(a: string, b: string, c: string)
    ensures a + b + c == a + (b + c)
  {
  }

  lemma {:induction false} TaskPushed(rest: seq<Task>, t: Task, pos: nat)
    ensures var a := Lay(t.0, t.1, t.2, pos); var b := LayTasks(rest, a.1);
      LayTasks(rest + [t], pos) == (a.0 + b.0, b.1)
    ensures TaskSizes(rest + [t]) == TaskSizes(rest) + Size(t.0)
  {
    assert (rest + [t])[..|rest|] == rest;
  }

  method PushReversed(rest: seq<Task>, fs: seq<Fmt>, ind: nat, flat: bool) returns (todo: seq<Task>)
    ensures todo == rest + Reversed(fs, ind, flat)
  {
    todo := rest;
    var k := |fs|;
    assert fs[k..] == [];
    while k > 0
      invariant 0 <= k <= |fs| && todo == rest + Reversed(fs[k..], ind, flat)
    {
      k := k - 1;
      assert fs[k..][0] == fs[k] && fs[k..][1..] == fs[k + 1..];
      todo := todo + [(fs[k], ind, flat)];
    }
    assert fs[0..] == fs;
  }

  /** The layout with an explicit work list prints what the recursive one does. */
  method Layout(f: Fmt) returns (out: string)
    ensures out == Lay(f, 0, false, 0).0
    ensures Reflows(out, f, 0, false) && (OneLine(f) ==> Fitted(out, f, 0, false, 0))
  {
    LayMeans(f);
    TaskPushed([], (f, 0, false), 0);
    assert [] + [(f, 0, false)] == [(f, 0, false)];
    out := RunTasks([(f, 0, false)]);
  }

  lemma {:induction false} LayMeans(f: Fmt)
    ensures Reflows(Lay(f, 0, false, 0).0, f, 0, false)
    ensures OneLine(f) ==> Fitted(Lay(f, 0, false, 0).0, f, 0, false, 0)
  {
    LayReflows(f, 0, false, 0);
    if OneLine(f) {
      LayFitted(f, 0, false, 0);
    }
  }

  method RunTasks(tasks: seq<Task>) returns (out: string)
    ensures out == LayTasks(tasks, 0).0
  {
    out := "";
    var pos: nat := 0;
    var todo := tasks;
    EmptyBefore(LayTasks(tasks, 0).0);
    while todo != []
      invariant out + LayTasks(todo, pos).0 == LayTasks(tasks, 0).0
      decreases TaskSizes(todo)
    {
      var t, rest := todo[|todo| - 1], todo[..|todo| - 1];
      assert todo == rest + [t];
      var text;
      ghost var before := out;
      text, todo, pos := RunTask(t, rest, pos);
      out := out + text;
      Regroup(before, text, LayTasks(todo, pos).0);
    }
    assert out + "" == out;
  }

  /** What one task prints, and what it leaves to do. */
  method RunTask(t: Task, rest: seq<Task>, pos: nat) returns (text: string, todo: seq<Task>, pos': nat)
    ensures text + LayTasks(todo, pos').0 == LayTasks(rest + [t], pos).0
    ensures TaskSizes(todo) < TaskSizes(rest + [t])
  {
    TaskPushed(rest, t, pos);
    text, todo, pos' := "", rest, pos;
    if t.0.Str? || t.0.LineBreak? {
      text, pos' := Word(t, pos);
    } else if t.0.Compose? {
      ReversedLays(rest, t.0.fs, t.1, t.2, pos);
      todo := PushReversed(rest, t.0.fs, t.1, t.2);
      EmptyBefore(LayTasks(todo, pos).0);
    } else {
      var u := if t.0.Indent? then (t.0.f, t.1 + t.0.i, t.2) else (t.0.f, t.1, Fits(t.0.f, t.2, pos));
      TaskPushed(rest, u, pos);
      todo := rest + [u];
      EmptyBefore(LayTasks(todo, pos).0);
    }
  }

  lemma {:induction false} EmptyBefore(s: string)
    ensures "" + s == s
  {
  }

  /** A string, or a line break: a space when flat, else a new line with its indentation. */
  method Word(t: Task, pos: nat) returns (text: string, pos': nat)
    requires t.0.Str? || t.0.LineBreak?
    ensures (text, pos') == Lay(t.0, t.1, t.2, pos)
  {
    if t.0.Str? {
      text, pos' := t.0.t, pos + |t.0.t|;
    } else if t.2 {
      text, pos' := " ", pos + 1;
    } else {
      text, pos' := "\n" + Spaces(t.1), t.1;
    }
  }

  // ----- what the layout keeps -----

  /** What stands for a line break: a space, or a new line with its indentation. */
  ghost predicate Gap(t: string, ind: nat, flat: bool) {
    if flat then t == " " else t == "\n" + Spaces(ind)
  }

  /** The text is the document's: line breaks are gaps, indented by all that is around them, and flat together in each group. */
  ghost predicate Reflows(t: string, f: Fmt, ind: nat, flat: bool)
    decreases f
  {
    match f
    case Str(u) => t == u
    case Compose(fs) => ReflowsAll(t, fs, ind, flat)
    case Indent(i, g) => Reflows(t, g, ind + i, flat)
    case Group(g) => Reflows(t, g, ind, true) || (!flat && Reflows(t, g, ind, false))
    case LineBreak => Gap(t, ind, flat)
  }

  ghost predicate ReflowsAll(t: string, fs: seq<Fmt>, ind: nat, flat: bool)
    decreases fs
  {
    if fs == [] then t == ""
    else exists i: nat :: i <= |t| && Reflows(t[..i], fs[0], ind, flat) && ReflowsAll(t[i..], fs[1..], ind, flat)
  }

  /** The layout changes nothing but gaps. */
  lemma {:induction false} LayReflows(f: Fmt, ind: nat, flat: bool, pos: nat)
    ensures Reflows(Lay(f, ind, flat, pos).0, f, ind, flat)
  {
    match f
    case Compose(fs) => LayAllReflows(fs, ind, flat, pos);
    case Indent(i, g) => LayReflows(g, ind + i, flat, pos);
    case Group(g) => LayReflows(g, ind, Fits(g, flat, pos), pos);
    case _ =>
  }

  lemma {:induction false} LayAllReflows(fs: seq<Fmt>, ind: nat, flat: bool, pos: nat)
    ensures ReflowsAll(LayAll(fs, ind, flat, pos).0, fs, ind, flat)
  {
    if fs != [] {
      var a := Lay(fs[0], ind, flat, pos);
      var t := LayAll(fs, ind, flat, pos).0;
      LayReflows(fs[0], ind, flat, pos);
      LayAllReflows(fs[1..], ind, flat, a.1);
      assert t[..|a.0|] == a.0 && t[|a.0|..] == LayAll(fs[1..], ind, flat, a.1).0;
    }
  }

  // ----- which groups are flat -----

  /** The column after the text. */
  function Column(pos: nat, t: string): nat {
    if t == "" then pos else if t[|t| - 1] == '\n' then 0 else Column(pos, t[..|t| - 1]) + 1
  }

  /** No string of the document contains a new line. */
  ghost predicate OneLine(f: Fmt)
    decreases f
  {
    match f
    case Str(t) => '\n' !in t
    case Compose(fs) => AllOneLine(fs)
    case Indent(_, g) => OneLine(g)
    case Group(g) => OneLine(g)
    case LineBreak => true
  }

  ghost predicate AllOneLine(fs: seq<Fmt>)
    decreases fs
  {
    fs == [] || (OneLine(fs[0]) && AllOneLine(fs[1..]))
  }

  /** The text from column `pos` on reflows the document, and a group is flat exactly when one around it is, or when its text in
      one line ends within the width. */
  ghost predicate Fitted(t: string, f: Fmt, ind: nat, flat: bool, pos: nat)
    decreases f
  {
    match f
    case Str(u) => t == u
    case Compose(fs) => FittedAll(t, fs, ind, flat, pos)
    case Indent(i, g) => Fitted(t, g, ind + i, flat, pos)
    case Group(g) => Fitted(t, g, ind, flat || (pos < MAX_WIDTH && pos + |FlatText(g)| <= MAX_WIDTH), pos)
    case LineBreak => Gap(t, ind, flat)
  }

  ghost predicate FittedAll(t: string, fs: seq<Fmt>, ind: nat, flat: bool, pos: nat)
    decreases fs
  {
    if fs == [] then t == ""
    else
      exists i: nat :: i <= |t| && Fitted(t[..i], fs[0], ind, flat, pos)
        && FittedAll(t[i..], fs[1..], ind, flat, Column(pos, t[..i]))
  }

  lemma {:induction false} ColumnAppend(pos: nat, a: string, b: string)
    ensures Column(pos, a + b) == Column(Column(pos, a), b)
    decreases |b|
  {
    if b == "" {
      assert a + b == a;
    } else {
      var n := |b| - 1;
      ColumnAppend(pos, a, b[..n]);
      assert (a + b)[..|a| + n] == a + b[..n] && (a + b)[|a| + n] == b[n];
    }
  }

  lemma {:induction false} ColumnWord(pos: nat, t: string)
    requires '\n' !in t
    ensures Column(pos, t) == pos + |t|
    decreases |t|
  {
    if t != "" {
      ColumnWord(pos, t[..|t| - 1]);
    }
  }

  lemma {:induction false} SpacesAre(n: nat)
    ensures |Spaces(n)| == n && forall i :: 0 <= i < n ==> Spaces(n)[i] == ' '
  {
    if n > 0 {
      SpacesAre(n - 1);
    }
  }

  lemma {:induction false} ColumnGap(pos: nat, ind: nat)
    ensures Column(pos, "\n" + Spaces(ind)) == ind && Column(pos, " ") == pos + 1
  {
    SpacesAre(ind);
    ColumnAppend(pos, "\n", Spaces(ind));
    assert "\n"[|"\n"| - 1] == '\n';
    ColumnWord(0, Spaces(ind));
    ColumnWord(pos, " ");
  }

  /** The layout decides each group by the column it has reached. */
  lemma {:induction false} LayFitted(f: Fmt, ind: nat, flat: bool, pos: nat)
    requires OneLine(f)
    ensures Fitted(Lay(f, ind, flat, pos).0, f, ind, flat, pos) && Lay(f, ind, flat, pos).1 == Column(pos, Lay(f, ind, flat, pos).0)
  {
    match f
    case Str(t) => ColumnWord(pos, t);
    case Compose(fs) => LayAllFitted(fs, ind, flat, pos);
    case Indent(i, g) => LayFitted(g, ind + i, flat, pos);
    case Group(g) =>
      FlatWidthIsLength(g);
      LayFitted(g, ind, Fits(g, flat, pos), pos);
    case LineBreak => ColumnGap(pos, ind);
  }

  lemma {:induction false} LayAllFitted(fs: seq<Fmt>, ind: nat, flat: bool, pos: nat)
    requires AllOneLine(fs)
    ensures FittedAll(LayAll(fs, ind, flat, pos).0, fs, ind, flat, pos)
    ensures LayAll(fs, ind, flat, pos).1 == Column(pos, LayAll(fs, ind, flat, pos).0)
  {
    if fs != [] {
      var a := Lay(fs[0], ind, flat, pos);
      var b := LayAll(fs[1..], ind, flat, a.1);
      var t := LayAll(fs, ind, flat, pos).0;
      LayFitted(fs[0], ind, flat, pos);
      LayAllFitted(fs[1..], ind, flat, a.1);
      ColumnAppend(pos, a.0, b.0);
      assert t[..|a.0|] == a.0 && t[|a.0|..] == b.0;
    }
  }

  // ----- how broken groups are aligned -----

  /** The items under each other, every one from column `c` on. */
  ghost function Stacked(fs: seq<Fmt>, c: nat): string {
    if fs == [] then ""
    else Lay(fs[0], c, false, c).0 + if |fs| == 1 then "" else "\n" + Spaces(c) + Stacked(fs[1..], c)
  }

  lemma {:induction false} LinesStack(fs: seq<Fmt>, c: nat, pos: nat)
    ensures LayAll(Lines(fs), c, false, pos).0 == if fs == [] then "" else "\n" + Spaces(c) + Stacked(fs, c)
  {
    if fs != [] {
      var lines := Lines(fs);
      assert lines[0] == LineBreak && lines[1] == fs[0] && lines[1..][0] == fs[0] && lines[1..][1..] == Lines(fs[1..]);
      var a := Lay(fs[0], c, false, c);
      LinesStack(fs[1..], c, a.1);
      var rest := LayAll(Lines(fs[1..]), c, false, a.1).0;
      assert LayAll(lines[1..], c, false, c).0 == a.0 + rest;
      assert Stacked(fs, c) == a.0 + rest;
    }
  }

  /** First and other items, the first from column `c` on. */
  lemma {:induction false} ItemsStack(fs: seq<Fmt>, tail: seq<Fmt>, c: nat)
    requires fs != []
    ensures LayAll([fs[0], Seq(fs[1..])] + tail, c, false, c).0
      == Stacked(fs, c) + LayAll(tail, c, false, LayAll([fs[0], Seq(fs[1..])], c, false, c).1).0
  {
    var two := [fs[0], Seq(fs[1..])];
    LayAppend(two, tail, c, false, c);
    var a := Lay(fs[0], c, false, c);
    LinesStack(fs[1..], c, a.1);
    assert two[1..] == [Seq(fs[1..])] && two[1..][1..] == [];
    assert LayAll(two[1..], c, false, a.1).0 == LayAll(Lines(fs[1..]), c, false, a.1).0 + "";
  }

  lemma {:induction false} LayAppend(fs: seq<Fmt>, gs: seq<Fmt>, ind: nat, flat: bool, pos: nat)
    ensures var a := LayAll(fs, ind, flat, pos); var b := LayAll(gs, ind, flat, a.1);
      LayAll(fs + gs, ind, flat, pos) == (a.0 + b.0, b.1)
  {
    if fs == [] {
      assert fs + gs == gs;
      EmptyBefore(LayAll(gs, ind, flat, pos).0);
    } else {
      var a := Lay(fs[0], ind, flat, pos);
      LayAppend(fs[1..], gs, ind, flat, a.1);
      assert (fs + gs)[1..] == fs[1..] + gs && (fs + gs)[0] == fs[0];
      var x := LayAll(fs[1..], ind, flat, a.1);
      Regroup(a.0, x.0, LayAll(gs, ind, flat, x.1).0);
    }
  }

  /** After a space, the items from column `c` on, and a parenthesis. */
  lemma {:induction false} BodyStack(fs: seq<Fmt>, c: nat)
    requires fs != [] && c > 0
    ensures LayAll([Str(" "), fs[0], Seq(fs[1..]), Str(")")], c, false, c - 1).0 == " " + (Stacked(fs, c) + ")")
  {
    var body := [Str(" "), fs[0], Seq(fs[1..]), Str(")")];
    assert body[1..] == [fs[0], Seq(fs[1..])] + [Str(")")];
    ItemsStack(fs, [Str(")")], c);
    LayOne(Str(")"), c, LayAll([fs[0], Seq(fs[1..])], c, false, c).1);
  }

  lemma {:induction false} LayOne(f: Fmt, ind: nat, pos: nat)
    ensures LayAll([f], ind, false, pos) == Lay(f, ind, false, pos)
  {
    assert [f][1..] == [];
    assert Lay(f, ind, false, pos).0 + "" == Lay(f, ind, false, pos).0;
  }

  lemma {:induction false} LayTwo(f: Fmt, g: Fmt, ind: nat, pos: nat)
    ensures var a := Lay(f, ind, false, pos); var b := Lay(g, ind, false, a.1);
      LayAll([f, g], ind, false, pos) == (a.0 + b.0, b.1)
  {
    assert [f, g][1..] == [g];
    LayOne(g, ind, Lay(f, ind, false, pos).1);
  }

  lemma {:induction false} LayThree(f: Fmt, g: Fmt, h: Fmt, ind: nat, pos: nat)
    ensures var a := Lay(f, ind, false, pos); var b := Lay(g, ind, false, a.1); var c := Lay(h, ind, false, b.1);
      LayAll([f, g, h], ind, false, pos) == (a.0 + (b.0 + c.0), c.1)
  {
    assert [f, g, h][1..] == [g, h];
    LayTwo(g, h, ind, Lay(f, ind, false, pos).1);
  }

  /** Broken at its own column, the elements are aligned after the header. */
  lemma {:induction false} Seq1Broken(items: seq<Fmt>, header: string, ind: nat)
    requires items != [] && !Fits(Seq1(items, header).f, false, ind)
    ensures Lay(Seq1(items, header), ind, false, ind).0
      == "(" + (header + (" " + (Stacked(items, ind + |header| + 2) + ")")))
  {
    var body := Indent(|header| + 2, Compose([Str(" "), items[0], Seq(items[1..]), Str(")")]));
    BodyStack(items, ind + |header| + 2);
    LayThree(Str("("), Str(header), body, ind, ind);
  }

  /** Broken at its own column, the elements are aligned after the parenthesis. */
  lemma {:induction false} Seq5Broken(items: seq<Fmt>, ind: nat)
    requires items != [] && !Fits(Seq5(items).f, false, ind)
    ensures Lay(Seq5(items), ind, false, ind).0 == "(" + (Stacked(items, ind + 1) + ")")
  {
    var c, rest := ind + 1, Seq(items[1..]);
    var a := Lay(items[0], c, false, c);
    var b := Lay(rest, c, false, a.1);
    LayTwo(Str("("), items[0], c, ind);
    LayTwo(rest, Str(")"), c, a.1);
    LayTwo(Indent(1, Compose([Str("("), items[0]])), Indent(1, Compose([rest, Str(")")])), ind, ind);
    LayTwo(items[0], rest, c, c);
    ItemsStack(items, [], c);
    assert [items[0], rest] + [] == [items[0], rest];
    assert Stacked(items, c) == a.0 + b.0;
    Regroup("(", a.0, b.0 + ")");
    Regroup(a.0, b.0, ")");
  }

  /** Printed flat, the document is its text in one line. */
  lemma {:induction false} LayFlat(f: Fmt, ind: nat, pos: nat)
    ensures Lay(f, ind, true, pos) == (FlatText(f), pos + |FlatText(f)|)
  {
    match f
    case Compose(fs) => LayAllFlat(fs, ind, pos);
    case Indent(i, g) => LayFlat(g, ind + i, pos);
    case Group(g) => LayFlat(g, ind, pos);
    case _ =>
  }

  lemma {:induction false} LayAllFlat(fs: seq<Fmt>, ind: nat, pos: nat)
    ensures LayAll(fs, ind, true, pos) == (FlatTexts(fs), pos + |FlatTexts(fs)|)
  {
    if fs != [] {
      LayFlat(fs[0], ind, pos);
      LayAllFlat(fs[1..], ind, pos + |FlatText(fs[0])|);
    }
  }

  /** A group that fits the line is printed in one line; one that does not has its own line breaks printed as new lines. */
  lemma {:induction false} GroupFits(f: Fmt, ind: nat, pos: nat)
    ensures pos + |FlatText(f)| <= MAX_WIDTH && pos < MAX_WIDTH ==>
      Lay(Group(f), ind, false, pos) == (FlatText(f), pos + |FlatText(f)|)
    ensures !(pos + |FlatText(f)| <= MAX_WIDTH && pos < MAX_WIDTH) ==>
      Lay(Group(f), ind, false, pos) == Lay(f, ind, false, pos)
  {
    FlatWidthIsLength(f);
    LayFlat(f, ind, pos);
  }
}
