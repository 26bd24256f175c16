/**
 * The readiness loop: widgets registered for rendering and for readiness,
 * one wake of the loop (ready handlers, then one framed record), and the
 * output stream: a header, then one `[...],` line per wake that had events.
 *
 * Standard output is the `out` field; the kernel's readiness wait is
 * replaced by the batches of ready descriptors it returns, and each widget's
 * get_string() by the text it yields at render time.
 */
module Readiness {
  import opened Wrappers

  type WidgetId = nat
  type Fd = int

  /** Largest batch one readiness wait returns (MAX_EVENTS). */
  const MaxEvents: nat := 8

  /** Written once, before the first record. */
  const Header: string := "{\"version\":1}\n[\n"

  /** What a widget's get_string() returns: null, or the text before its NUL. */
  type Render = WidgetId -> Option<string>

  /** A call the loop makes on a widget. */
  datatype Call = DescriptorReady(widget: WidgetId) | GetString(widget: WidgetId)

  // ---------------------------------------------------------------------
  // Record framing

  /** A text that print_stuff writes: not null and not empty. */
  predicate Shown(t: Option<string>) {
    t.Some? && t.value != []
  }

  /** The texts of the widgets, in registration order. */
  function Texts(widgets: seq<WidgetId>, render: Render): (ts: seq<Option<string>>)
    ensures |ts| == |widgets|
    ensures forall i | 0 <= i < |widgets| :: ts[i] == render(widgets[i])
  {
    if widgets == [] then []
    else Texts(widgets[..|widgets| - 1], render) + [render(widgets[|widgets| - 1])]
  }

  /** The texts that are shown, in order. */
  function ShownTexts(ts: seq<Option<string>>): (r: seq<string>)
    ensures |r| <= |ts|
  {
    if ts == [] then []
    else ShownTexts(ts[..|ts| - 1]) + (if Shown(ts[|ts| - 1]) then [ts[|ts| - 1].value] else [])
  }

  /** The strings separated by single commas. */
  function Join(xs: seq<string>): string {
    if |xs| == 0 then ""
    else if |xs| == 1 then xs[0]
    else Join(xs[..|xs| - 1]) + "," + xs[|xs| - 1]
  }

  /** One more widget in print_stuff: a shown text joins the shown texts;
      any other text is skipped. */
  lemma ShownStep(ts: seq<Option<string>>, i: nat)
    requires i < |ts|
    ensures ShownTexts(ts[..i + 1]) == ShownTexts(ts[..i]) + (if Shown(ts[i]) then [ts[i].value] else [])
  {
    assert ts[..i + 1][..i] == ts[..i] && ts[..i + 1][i] == ts[i];
  }

  /** Joining one more string: it follows a comma unless it is the first. */
  lemma JoinStep(prefix: string, xs: seq<string>, v: string)
    ensures prefix + Join(xs + [v]) == if xs == [] then prefix + v else prefix + Join(xs) + "," + v
  {
    assert (xs + [v])[..|xs|] == xs;
    if xs != [] {
      assert Join(xs + [v]) == Join(xs) + "," + v;
      assert prefix + (Join(xs) + "," + v) == prefix + Join(xs) + "," + v;
    }
  }

  /** Writing a record piece by piece writes the record. */
  lemma WriteRecord(before: string, joined: string)
    ensures before + "[" + joined + "],\n" == before + ("[" + joined + "],\n")
  {
  }

  /** One output record: '[', the shown texts joined by commas, "],\n". */
  function Record(ts: seq<Option<string>>): (r: string)
    ensures |r| >= 4 && r[0] == '[' && r[|r| - 3..] == "],\n"
  {
    "[" + Join(ShownTexts(ts)) + "],\n"
  }

  /** The strings of a comma-separated list: the inverse of Join. */
  function Split(s: string): (r: seq<string>)
    ensures |r| >= 1
  {
    if s == [] then [""]
    else if s[0] == ',' then [""] + Split(s[1..])
    else var rest := Split(s[1..]); [[s[0]] + rest[0]] + rest[1..]
  }

  lemma {:induction false} SplitAround(a: string, b: string)
    ensures Split(a + "," + b) == Split(a) + Split(b)
  {
    if a == [] {
      assert a + "," + b == [','] + b;
      assert ([','] + b)[1..] == b;
    } else {
      assert (a + "," + b)[1..] == a[1..] + "," + b;
      SplitAround(a[1..], b);
    }
  }

  lemma {:induction false} SplitWithoutComma(s: string)
    requires ',' !in s
    ensures Split(s) == [s]
  {
    if s != [] {
      SplitWithoutComma(s[1..]);
      assert s == [s[0]] + s[1..];
    }
  }

  /** Splitting a joined list of comma-free strings gives the list back. */
  lemma {:induction false} SplitJoin(xs: seq<string>)
    requires xs != []
    requires forall s | s in xs :: ',' !in s
    ensures Split(Join(xs)) == xs
  {
    if |xs| == 1 {
      SplitWithoutComma(xs[0]);
    } else {
      var init, last := xs[..|xs| - 1], xs[|xs| - 1];
      SplitJoin(init);
      SplitAround(Join(init), last);
      SplitWithoutComma(last);
      assert xs == init + [last];
    }
  }

  /** The number of commas in a string. */
  function Commas(s: string): nat {
    if s == [] then 0 else (if s[0] == ',' then 1 else 0) + Commas(s[1..])
  }

  lemma {:induction false} CommasAppend(a: string, b: string)
    ensures Commas(a + b) == Commas(a) + Commas(b)
  {
    if a == [] {
      assert a + b == b;
    } else {
      assert (a + b)[0] == a[0] && (a + b)[1..] == a[1..] + b;
      CommasAppend(a[1..], b);
    }
  }

  /** The commas of the strings themselves. */
  function CommasOf(xs: seq<string>): nat {
    if xs == [] then 0 else CommasOf(xs[..|xs| - 1]) + Commas(xs[|xs| - 1])
  }

  /** Join adds exactly one separator between neighbours: n strings get
      n - 1 commas, none before the first or after the last. */
  lemma {:induction false} JoinSeparators(xs: seq<string>)
    requires xs != []
    ensures Commas(Join(xs)) == CommasOf(xs) + |xs| - 1
    ensures |Join(xs)| >= |xs[0]| && |Join(xs)| >= |xs[|xs| - 1]|
    ensures Join(xs)[..|xs[0]|] == xs[0]
    ensures Join(xs)[|Join(xs)| - |xs[|xs| - 1]|..] == xs[|xs| - 1]
  {
    if |xs| == 1 {
      assert CommasOf(xs) == CommasOf([]) + Commas(xs[0]);
    } else {
      var init, last := xs[..|xs| - 1], xs[|xs| - 1];
      JoinSeparators(init);
      CommasAppend(Join(init), ",");
      CommasAppend(Join(init) + ",", last);
      assert Commas(",") == 1 by { assert ","[1..] == []; }
      assert init[0] == xs[0];
    }
  }

  /** A record lists exactly the shown texts, in registration order, between
      '[' and "],\n", provided no text contains a comma itself; with no shown
      text it is "[],\n". */
  lemma RecordFields(ts: seq<Option<string>>)
    requires forall s | s in ShownTexts(ts) :: ',' !in s
    ensures var r := Record(ts);
      && (ShownTexts(ts) != [] ==> Split(r[1..|r| - 3]) == ShownTexts(ts))
      && (ShownTexts(ts) == [] ==> r == "[],\n")
  {
    var j := Join(ShownTexts(ts));
    assert Record(ts)[1..|Record(ts)| - 3] == j;
    if ShownTexts(ts) != [] {
      SplitJoin(ShownTexts(ts));
    }
  }

  /** The shown texts of two runs of widgets, one after the other. */
  lemma {:induction false} ShownTextsAppend(a: seq<Option<string>>, b: seq<Option<string>>)
    ensures ShownTexts(a + b) == ShownTexts(a) + ShownTexts(b)
    decreases |b|
  {
    if b == [] {
      assert a + b == a;
    } else {
      var init, last := b[..|b| - 1], b[|b| - 1];
      ShownTextsAppend(a, init);
      assert (a + b)[..|a + b| - 1] == a + init && (a + b)[|a + b| - 1] == last;
      Append3(ShownTexts(a), ShownTexts(init), if Shown(last) then [last.value] else []);
    }
  }

  /** A widget whose text is null or empty adds neither a text nor a comma:
      the record is the one of the other widgets. */
  lemma EmptyWidgetSkipped(a: seq<Option<string>>, t: Option<string>, b: seq<Option<string>>)
    requires !Shown(t)
    ensures Record(a + [t] + b) == Record(a + b)
  {
    ShownTextsAppend(a + [t], b);
    ShownTextsAppend(a, [t]);
    ShownTextsAppend(a, b);
    assert [t][..0] == [];
    assert ShownTexts([t]) == [];
    assert ShownTexts(a + [t] + b) == ShownTexts(a + b);
  }

  /** Two widgets, one rendering "A" and one rendering nothing. */
  lemma EmptyWidgetExample()
    ensures Record([Some("A"), Some("")]) == "[A],\n"
    ensures Record([None, Some("A")]) == "[A],\n"
  {
    assert ShownTexts([Some("A"), Some("")]) == ["A"] by {
      var ts: seq<Option<string>> := [Some("A"), Some("")];
      assert ts[..1] == [Some("A")];
      assert ts[..1][..0] == [];
    }
    assert ShownTexts([None, Some("A")]) == ["A"] by {
      var ts: seq<Option<string>> := [None, Some("A")];
      assert ts[..1] == [None];
      assert ts[..1][..0] == [];
    }
  }

  // ---------------------------------------------------------------------
  // Calls on widgets

  /** The descriptor_ready calls for a batch, in event order. */
  function ReadyCalls(ready: seq<Fd>, sources: map<Fd, WidgetId>): (cs: seq<Call>)
    requires forall i | 0 <= i < |ready| :: ready[i] in sources
    ensures |cs| == |ready|
    ensures forall i | 0 <= i < |ready| :: cs[i] == DescriptorReady(sources[ready[i]])
  {
    if ready == [] then []
    else ReadyCalls(ready[..|ready| - 1], sources) + [DescriptorReady(sources[ready[|ready| - 1]])]
  }

  /** The get_string calls of one record, in registration order. */
  function RenderCalls(widgets: seq<WidgetId>): (cs: seq<Call>)
    ensures |cs| == |widgets|
  {
    if widgets == [] then []
    else RenderCalls(widgets[..|widgets| - 1]) + [GetString(widgets[|widgets| - 1])]
  }

  /** A record asks every widget for its text exactly once, in registration order. */
  lemma {:induction false} RenderCallsInOrder(widgets: seq<WidgetId>)
    ensures forall i | 0 <= i < |widgets| :: RenderCalls(widgets)[i] == GetString(widgets[i])
  {
    if widgets != [] {
      RenderCallsInOrder(widgets[..|widgets| - 1]);
    }
  }

  lemma RenderCallsStep(widgets: seq<WidgetId>, i: nat)
    requires i < |widgets|
    ensures RenderCalls(widgets[..i + 1]) == RenderCalls(widgets[..i]) + [GetString(widgets[i])]
  {
    assert widgets[..i + 1][..i] == widgets[..i];
  }

  /** What one wake writes: a record exactly when the batch is not empty. */
  function WakeOutput(widgets: seq<WidgetId>, ready: seq<Fd>, render: Render): (r: string)
    ensures r == "" <==> |ready| == 0
    ensures |ready| > 0 ==> |r| >= 4 && r[0] == '[' && r[|r| - 3..] == "],\n"
  {
    if |ready| > 0 then Record(Texts(widgets, render)) else ""
  }

  /** The calls of one wake: every ready handler, then, if there was an
      event, every widget's get_string. */
  function WakeCalls(widgets: seq<WidgetId>, sources: map<Fd, WidgetId>, ready: seq<Fd>): (r: seq<Call>)
    requires forall i | 0 <= i < |ready| :: ready[i] in sources
    ensures |r| == |ready| + (if |ready| > 0 then |widgets| else 0)
    ensures forall i | 0 <= i < |ready| :: r[i] == DescriptorReady(sources[ready[i]])
    ensures forall i | |ready| <= i < |r| :: r[i] == GetString(widgets[i - |ready|])
  {
    RenderCallsInOrder(widgets);
    ReadyCalls(ready, sources) + (if |ready| > 0 then RenderCalls(widgets) else [])
  }

  /** One return of the readiness wait: the descriptors it reported, and
      what each widget's get_string() yields after their handlers ran. */
  datatype Wakeup = Wakeup(ready: seq<Fd>, render: Render)

  /** A batch the wait can return: at most MaxEvents descriptors, each armed. */
  predicate Armed(ready: seq<Fd>, sources: map<Fd, WidgetId>) {
    |ready| <= MaxEvents && forall i | 0 <= i < |ready| :: ready[i] in sources
  }

  /** The records of a sequence of wakes. */
  function RunOutput(widgets: seq<WidgetId>, wakes: seq<Wakeup>): (r: string)
    ensures r == "" <==> Busy(wakes) == 0
    ensures |r| >= 4 * Busy(wakes)
  {
    if wakes == [] then ""
    else RunOutput(widgets, wakes[..|wakes| - 1])
         + WakeOutput(widgets, wakes[|wakes| - 1].ready, wakes[|wakes| - 1].render)
  }

  lemma RunOutputStep(prefix: string, widgets: seq<WidgetId>, wakes: seq<Wakeup>, k: nat)
    requires k < |wakes|
    ensures prefix + RunOutput(widgets, wakes[..k + 1])
            == prefix + RunOutput(widgets, wakes[..k]) + WakeOutput(widgets, wakes[k].ready, wakes[k].render)
  {
    assert wakes[..k + 1][..k] == wakes[..k];
    assert RunOutput(widgets, wakes[..k + 1])
        == RunOutput(widgets, wakes[..k]) + WakeOutput(widgets, wakes[k].ready, wakes[k].render);
    Append3(prefix, RunOutput(widgets, wakes[..k]), WakeOutput(widgets, wakes[k].ready, wakes[k].render));
  }

  /** Appending two strings in turn appends their concatenation. */
  lemma Append3<T>(a: seq<T>, b: seq<T>, c: seq<T>)
    ensures a + (b + c) == a + b + c
  {
  }

  /** The number of wakes that had at least one event. */
  function Busy(wakes: seq<Wakeup>): nat {
    if wakes == [] then 0 else Busy(wakes[..|wakes| - 1]) + (if |wakes[|wakes| - 1].ready| > 0 then 1 else 0)
  }

  /** No widget text contains a newline. */
  predicate SingleLine(widgets: seq<WidgetId>, render: Render) {
    forall i | 0 <= i < |widgets| :: render(widgets[i]).Some? ==> '\n' !in render(widgets[i]).value
  }

  /** One record per wake with events, none for an empty wake: counted by
      the newline that ends each record, provided no widget text contains a
      newline. */
  lemma {:induction false} OneRecordPerBusyWake(widgets: seq<WidgetId>, wakes: seq<Wakeup>)
    requires forall k | 0 <= k < |wakes| :: SingleLine(widgets, wakes[k].render)
    ensures Newlines(RunOutput(widgets, wakes)) == Busy(wakes)
  {
    if wakes != [] {
      var n := |wakes| - 1;
      var w := wakes[n];
      var prev, cur := RunOutput(widgets, wakes[..n]), WakeOutput(widgets, w.ready, w.render);
      assert RunOutput(widgets, wakes) == prev + cur;
      OneRecordPerBusyWake(widgets, wakes[..n]);
      NewlinesAppend(prev, cur);
      WakeNewlines(widgets, w.ready, w.render);
    }
  }

  /** One wake ends one line when it had events, and none otherwise. */
  lemma WakeNewlines(widgets: seq<WidgetId>, ready: seq<Fd>, render: Render)
    requires SingleLine(widgets, render)
    ensures Newlines(WakeOutput(widgets, ready, render)) == if |ready| > 0 then 1 else 0
  {
    if |ready| > 0 {
      RecordNewlines(widgets, render);
    }
  }

  /** A record of single-line texts holds exactly one newline, its last
      character. */
  lemma RecordNewlines(widgets: seq<WidgetId>, render: Render)
    requires SingleLine(widgets, render)
    ensures Newlines(Record(Texts(widgets, render))) == 1
  {
    var ts := Texts(widgets, render);
    forall s | s in ShownTexts(ts) ensures '\n' !in s {
      ShownTextsFrom(ts);
      var i :| 0 <= i < |ts| && ts[i] == Some(s);
    }
    JoinWithoutNewline(ShownTexts(ts));
    var j := Join(ShownTexts(ts));
    NewlinesAppend("[" + j, "],\n");
    NewlinesAppend("[", j);
    FrameNewlines();
  }

  /** The record's opening and closing pieces: only the closing one ends a line. */
  lemma FrameNewlines()
    ensures Newlines("[") == 0 && Newlines("],\n") == 1
  {
    assert "["[1..] == [];
    assert "],\n"[1..] == ",\n";
    assert ",\n"[1..] == "\n";
    assert "\n"[1..] == [];
  }

  /** Every shown text is one of the texts. */
  lemma {:induction false} ShownTextsFrom(ts: seq<Option<string>>)
    ensures forall s | s in ShownTexts(ts) :: Some(s) in ts
  {
    if ts != [] {
      ShownTextsFrom(ts[..|ts| - 1]);
      assert forall t | t in ts[..|ts| - 1] :: t in ts;
    }
  }

  function Newlines(s: string): nat {
    if s == [] then 0 else (if s[0] == '\n' then 1 else 0) + Newlines(s[1..])
  }

  lemma {:induction false} NewlinesAppend(a: string, b: string)
    ensures Newlines(a + b) == Newlines(a) + Newlines(b)
  {
    if a == [] {
      assert a + b == b;
    } else {
      assert (a + b)[0] == a[0] && (a + b)[1..] == a[1..] + b;
      NewlinesAppend(a[1..], b);
    }
  }

  lemma {:induction false} NewlineFree(s: string)
    requires '\n' !in s
    ensures Newlines(s) == 0
  {
    if s != [] {
      assert forall c | c in s[1..] :: c in s;
      NewlineFree(s[1..]);
    }
  }

  lemma {:induction false} JoinWithoutNewline(xs: seq<string>)
    requires forall s | s in xs :: '\n' !in s
    ensures Newlines(Join(xs)) == 0
  {
    if |xs| == 1 {
      NewlineFree(xs[0]);
    } else if |xs| > 1 {
      var init, last := xs[..|xs| - 1], xs[|xs| - 1];
      assert forall s | s in init :: s in xs;
      JoinWithoutNewline(init);
      NewlineFree(last);
      NewlinesAppend(Join(init), ",");
      NewlinesAppend(Join(init) + ",", last);
      assert Newlines(",") == 0 by { assert ","[1..] == []; }
    }
  }

  // ---------------------------------------------------------------------
  // The loop object

  /** EventLoop: the render list, the descriptors armed for readiness and
      the widget each one wakes, everything written to standard output, and
      the calls made on widgets. */
  class EventLoop {
    var widgets: seq<WidgetId>
    var sources: map<Fd, WidgetId>
    var out: string
    var calls: seq<Call>

    /** The readiness channel is taken as created. */
    constructor ()
      ensures widgets == [] && sources == map[] && out == [] && calls == []
    {
      widgets, sources, out, calls := [], map[], [], [];
    }

    /** add_widget: append to the render list. */
    method AddWidget(w: WidgetId)
      modifies this
      ensures widgets == old(widgets) + [w]
      ensures sources == old(sources) && out == old(out) && calls == old(calls)
    {
      widgets := widgets + [w];
    }

    /** add_fd: arm `fd` for readiness on behalf of `w`. The kernel refuses
        a descriptor that is already armed, which aborts the process. */
    method AddFd(w: WidgetId, fd: Fd)
      requires fd !in sources
      modifies this
      ensures sources == old(sources)[fd := w]
      ensures widgets == old(widgets) && out == old(out) && calls == old(calls)
    {
      sources := sources[fd := w];
    }

    /** print_stuff: one record of the shown texts, in registration order. */
    method PrintStuff(render: Render)
      modifies this
      ensures widgets == old(widgets) && sources == old(sources)
      ensures out == old(out) + Record(Texts(widgets, render))
      ensures calls == old(calls) + RenderCalls(widgets)
    {
      ghost var ts := Texts(widgets, render);
      out := out + "[";
      ghost var framed := out;
      ghost var shown: seq<string> := [];
      var needComma := false;
      for i := 0 to |widgets|
        invariant widgets == old(widgets) && sources == old(sources)
        invariant shown == ShownTexts(ts[..i])
        invariant out == framed + Join(shown)
        invariant needComma <==> shown != []
        invariant calls == old(calls) + RenderCalls(widgets[..i])
      {
        var s := render(widgets[i]);
        assert ts[i] == s;
        ShownStep(ts, i);
        RenderCallsStep(widgets, i);
        calls := calls + [GetString(widgets[i])];
        if s.None? || s.value == [] {
          continue;
        }
        JoinStep(framed, shown, s.value);
        if needComma {
          out := out + ",";
        } else {
          needComma := true;
        }
        out := out + s.value;
        shown := shown + [s.value];
      }
      assert ts[..|widgets|] == ts;
      assert widgets[..|widgets|] == widgets;
      WriteRecord(old(out), Join(ShownTexts(ts)));
      out := out + "],\n";
    }

    /** One pass of run's loop: the ready handlers in event order, then one
        record if there was any event. */
    method Wake(ready: seq<Fd>, render: Render)
      requires Armed(ready, sources)
      modifies this
      ensures widgets == old(widgets) && sources == old(sources)
      ensures out == old(out) + WakeOutput(widgets, ready, render)
      ensures calls == old(calls) + WakeCalls(widgets, sources, ready)
    {
      for i := 0 to |ready|
        invariant widgets == old(widgets) && sources == old(sources) && out == old(out)
        invariant calls == old(calls) + ReadyCalls(ready[..i], sources)
      {
        assert ready[..i + 1][..i] == ready[..i];
        Append3(old(calls), ReadyCalls(ready[..i], sources), [DescriptorReady(sources[ready[i]])]);
        calls := calls + [DescriptorReady(sources[ready[i]])];
      }
      assert ready[..|ready|] == ready;
      if |ready| > 0 {
        Append3(old(calls), ReadyCalls(ready, sources), RenderCalls(widgets));
        PrintStuff(render);
      } else {
        assert ReadyCalls(ready, sources) + [] == ReadyCalls(ready, sources);
      }
    }

    /** run, over the wakes it has had so far: the header once, then each
        wake in turn. The closing "]\n" after the endless loop is never
        written. */
    method Run(wakes: seq<Wakeup>)
      requires forall k | 0 <= k < |wakes| :: Armed(wakes[k].ready, sources)
      modifies this
      ensures widgets == old(widgets) && sources == old(sources)
      ensures out == old(out) + Header + RunOutput(widgets, wakes)
    {
      out := out + Header;
      ghost var started := out;
      for k := 0 to |wakes|
        invariant widgets == old(widgets) && sources == old(sources)
        invariant out == started + RunOutput(widgets, wakes[..k])
      {
        RunOutputStep(started, widgets, wakes, k);
        Wake(wakes[k].ready, wakes[k].render);
      }
      assert wakes[..|wakes|] == wakes;
    }
  }
}
