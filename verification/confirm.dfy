/** The yes/no confirmation prompt (cmd/views.go): a cursor over a list of
    options moved by arrow keys, confirmed with enter and abandoned with q or
    ctrl+c. `Update` is the key-event transition; the terminal program loop
    becomes a run over a finite sequence of messages. */
module Confirm {
  import opened Model

  /** A key press by its name, or any other event the terminal delivers. */
  datatype Msg = Key(name: string) | Other

  datatype ConfirmModel = ConfirmModel(
    title: string,
    task: Do,
    options: seq<string>,
    cursor: int,
    confirmed: bool,
    quitting: bool)

  predicate IsUp(msg: Msg) { msg == Key("up") || msg == Key("left") }
  predicate IsDown(msg: Msg) { msg == Key("down") || msg == Key("right") }
  predicate IsQuit(msg: Msg) { msg == Key("enter") || msg == Key("q") || msg == Key("ctrl+c") }

  /** The cursor points at an option, or at 0 when there are none. */
  predicate CursorOk(m: ConfirmModel) {
    0 <= m.cursor && (m.cursor < |m.options| || m.cursor == 0)
  }

  /** `newConfirmationModel`: cursor on the first option, nothing decided. */
  function NewConfirmationModel(task: Do, title: string, options: seq<string>): (m: ConfirmModel)
    ensures CursorOk(m) && m.cursor == 0
    ensures !m.confirmed && !m.quitting
    ensures m.options == options && m.task == task && m.title == title
  {
    ConfirmModel(title, task, options, 0, false, false)
  }

  /** `confirmModel.Update`: the next model and whether the program quits. */
  function Update(m: ConfirmModel, msg: Msg): (r: (ConfirmModel, bool))
    ensures r.0.title == m.title && r.0.task == m.task && r.0.options == m.options
    ensures CursorOk(m) ==> CursorOk(r.0)
    ensures (m.confirmed ==> m.quitting) ==> (r.0.confirmed ==> r.0.quitting)
    ensures r.1 <==> IsQuit(msg)
    ensures r.1 ==> r.0.quitting && r.0.cursor == m.cursor
    ensures r.1 ==> (r.0.confirmed <==> msg == Key("enter") && m.cursor == 0)
    ensures IsUp(msg) ==> r.0 == m.(cursor := if m.cursor > 0 then m.cursor - 1 else m.cursor)
    ensures IsDown(msg) ==> r.0 == m.(cursor := if m.cursor < |m.options| - 1 then m.cursor + 1 else m.cursor)
    ensures !IsUp(msg) && !IsDown(msg) && !IsQuit(msg) ==> r.0 == m
  {
    match msg
    case Other => (m, false)
    case Key(k) =>
      if k == "up" || k == "left" then
        (if m.cursor > 0 then m.(cursor := m.cursor - 1) else m, false)
      else if k == "down" || k == "right" then
        (if m.cursor < |m.options| - 1 then m.(cursor := m.cursor + 1) else m, false)
      else if k == "enter" then
        (m.(confirmed := m.cursor == 0, quitting := true), true)
      else if k == "q" || k == "ctrl+c" then
        (m.(confirmed := false, quitting := true), true)
      else (m, false)
  }

  /** The program loop: messages are fed to `Update` until it quits. */
  function Run(m: ConfirmModel, msgs: seq<Msg>): (r: ConfirmModel)
    ensures CursorOk(m) ==> CursorOk(r)
    ensures (m.confirmed ==> m.quitting) ==> (r.confirmed ==> r.quitting)
    ensures r.options == m.options
    decreases |msgs|
  {
    if |msgs| == 0 then m
    else
      var (next, quit) := Update(m, msgs[0]);
      if quit then next else Run(next, msgs[1..])
  }

  const YesNo: seq<string> := ["Yes", "No"]

  /** `Confirmation`: the prompt with options Yes and No. */
  function Confirmation(task: Do, title: string, msgs: seq<Msg>): (confirmed: bool)
    ensures confirmed ==> Run(NewConfirmationModel(task, title, YesNo), msgs).quitting
  {
    Run(NewConfirmationModel(task, title, YesNo), msgs).confirmed
  }

  /** Which of Yes (0) and No (1) is selected after some keys: the last
      arrow key decides, and Yes is selected before any. */
  function Selected(msgs: seq<Msg>): (c: int)
    ensures c == 0 || c == 1
  {
    if |msgs| == 0 then 0
    else if IsDown(msgs[|msgs| - 1]) then 1
    else if IsUp(msgs[|msgs| - 1]) then 0
    else Selected(msgs[..|msgs| - 1])
  }

  /** The prompt answers yes exactly when the first key that ends it is
      enter and Yes is selected at that moment. */
  predicate AnsweredYes(msgs: seq<Msg>, q: int) {
    && 0 <= q < |msgs|
    && msgs[q] == Key("enter")
    && (forall j :: 0 <= j < q ==> !IsQuit(msgs[j]))
    && Selected(msgs[..q]) == 0
  }

  lemma ConfirmationAnswer(task: Do, title: string, msgs: seq<Msg>)
    ensures Confirmation(task, title, msgs) <==> exists q :: AnsweredYes(msgs, q)
  {
    var m := NewConfirmationModel(task, title, YesNo);
    RunYesNo(m, [], msgs);
    assert [] + msgs == msgs;
    if Confirmation(task, title, msgs) {
      var q :| AnsweredYesAfter([], msgs, q);
      assert [] + msgs[..q] == msgs[..q];
      assert AnsweredYes(msgs, q);
    } else if q :| AnsweredYes(msgs, q) {
      assert [] + msgs[..q] == msgs[..q];
      assert AnsweredYesAfter([], msgs, q);
    }
  }

  /** `AnsweredYes` for the keys still to come, after `done` was handled. */
  predicate AnsweredYesAfter(done: seq<Msg>, msgs: seq<Msg>, q: int) {
    && 0 <= q < |msgs|
    && msgs[q] == Key("enter")
    && (forall j :: 0 <= j < q ==> !IsQuit(msgs[j]))
    && Selected(done + msgs[..q]) == 0
  }

  lemma {:induction false} RunYesNo(m: ConfirmModel, done: seq<Msg>, msgs: seq<Msg>)
    requires m.options == YesNo && m.cursor == Selected(done) && !m.confirmed
    ensures Run(m, msgs).confirmed <==> exists q :: AnsweredYesAfter(done, msgs, q)
    decreases |msgs|
  {
    if |msgs| > 0 {
      var next := Update(m, msgs[0]).0;
      if IsQuit(msgs[0]) {
        QuitFirst(m, done, msgs);
      } else {
        var done' := done + [msgs[0]];
        StepSelected(m, done, msgs[0]);
        RunYesNo(next, done', msgs[1..]);
        assert Run(m, msgs) == Run(next, msgs[1..]);
        if Run(m, msgs).confirmed {
          var q :| AnsweredYesAfter(done', msgs[1..], q);
          ShiftAnswer(done, msgs, q);
        } else if q :| AnsweredYesAfter(done, msgs, q) {
          assert q > 0;
          ShiftAnswer(done, msgs, q - 1);
        }
      }
    }
  }

  /** When the first key ends the prompt, the answer is decided by it. */
  lemma QuitFirst(m: ConfirmModel, done: seq<Msg>, msgs: seq<Msg>)
    requires |msgs| > 0 && IsQuit(msgs[0])
    requires m.cursor == Selected(done)
    ensures Run(m, msgs).confirmed <==> exists q :: AnsweredYesAfter(done, msgs, q)
  {
    assert msgs[..0] == [] && done + [] == done;
    if Run(m, msgs).confirmed {
      assert AnsweredYesAfter(done, msgs, 0);
    }
    forall q | AnsweredYesAfter(done, msgs, q) ensures q == 0 {
    }
  }

  /** An arrow key moves the Yes/No cursor to what `Selected` says. */
  lemma StepSelected(m: ConfirmModel, done: seq<Msg>, msg: Msg)
    requires m.options == YesNo && m.cursor == Selected(done) && !m.confirmed
    requires !IsQuit(msg)
    ensures Update(m, msg).0.cursor == Selected(done + [msg])
    ensures Update(m, msg).0.options == YesNo && !Update(m, msg).0.confirmed
  {
    var d := done + [msg];
    assert d[|d| - 1] == msg && d[..|d| - 1] == done;
  }

  /** Handling one key that does not end the prompt shifts the answer's
      position by one. */
  lemma ShiftAnswer(done: seq<Msg>, msgs: seq<Msg>, q: int)
    requires |msgs| > 0 && !IsQuit(msgs[0]) && q >= 0
    ensures AnsweredYesAfter(done + [msgs[0]], msgs[1..], q) <==> AnsweredYesAfter(done, msgs, q + 1)
  {
    if q < |msgs| - 1 {
      assert msgs[..q + 1] == [msgs[0]] + msgs[1..][..q];
      assert done + msgs[..q + 1] == done + [msgs[0]] + msgs[1..][..q];
      assert forall j :: 1 <= j < q + 1 ==> msgs[j] == msgs[1..][j - 1];
    }
  }

  /** Pressing enter straight away confirms; q or ctrl+c never does. */
  lemma ConfirmationExamples(task: Do, title: string)
    ensures Confirmation(task, title, [Key("enter")])
    ensures !Confirmation(task, title, [Key("down"), Key("enter")])
    ensures !Confirmation(task, title, [Key("q")]) && !Confirmation(task, title, [Key("ctrl+c")])
    ensures Confirmation(task, title, [Key("right"), Key("left"), Other, Key("enter")])
  {
    ConfirmationAnswer(task, title, [Key("down"), Key("enter")]);
    var ks := [Key("down"), Key("enter")];
    assert ks[..1] == [Key("down")];
    assert Selected(ks[..1]) == 1;
    var ms := [Key("right"), Key("left"), Other, Key("enter")];
    ConfirmationAnswer(task, title, ms);
    assert ms[..3][..2] == [Key("right"), Key("left")];
    assert Selected(ms[..3]) == 0;
    assert AnsweredYes(ms, 3);
  }
}
