/** Terminal colour escapes and display width (cmd/log.go, `stripANSI` and
    `WidthFunc`). A colour is an SGR sequence ESC '[' params 'm'; stripping
    deletes every such sequence, scanning left to right with non-overlapping
    matches, exactly as a regular-expression replace-all does. */
module Ansi {

  const Esc: char := '\U{1B}'

  /** The parameter characters of an SGR sequence. */
  predicate IsParam(c: char) {
    ('0' <= c <= '9') || c == ';'
  }

  /** Length of the run of parameter characters at the start of `s`. */
  function ParamRun(s: string): (n: nat)
    ensures n <= |s|
    ensures forall k :: 0 <= k < n ==> IsParam(s[k])
    ensures n < |s| ==> !IsParam(s[n])
  {
    if |s| > 0 && IsParam(s[0]) then 1 + ParamRun(s[1..]) else 0
  }

  /** Length of the escape sequence at the start of `s`, or 0 if none starts
      there. The run of parameters is maximal, so a match is unique. */
  function MatchLen(s: string): (n: nat)
    ensures n <= |s|
    ensures n > 0 ==> n >= 3 && s[0] == Esc && s[1] == '[' && s[n - 1] == 'm'
    ensures n > 0 ==> forall k :: 2 <= k < n - 1 ==> IsParam(s[k])
  {
    if |s| >= 2 && s[0] == Esc && s[1] == '[' then
      var k := ParamRun(s[2..]);
      if 2 + k < |s| && s[2 + k] == 'm' then 3 + k else 0
    else 0
  }

  /** `stripANSI`: the text with every escape sequence removed. */
  function StripAnsi(s: string): (r: string)
    ensures |r| <= |s|
    decreases |s|
  {
    if |s| == 0 then []
    else if MatchLen(s) > 0 then StripAnsi(s[MatchLen(s)..])
    else [s[0]] + StripAnsi(s[1..])
  }

  /** An SGR sequence with the given parameters. */
  function Sgr(params: string): (r: string)
    requires forall k :: 0 <= k < |params| ==> IsParam(params[k])
    ensures |r| == |params| + 3 && r[0] == Esc
  {
    [Esc, '['] + params + ['m']
  }

  /** Text without an escape character is left as it is. */
  lemma {:induction false} StripPlain(s: string)
    requires Esc !in s
    ensures StripAnsi(s) == s
  {
    if |s| > 0 {
      assert s[0] != Esc;
      assert Esc !in s[1..];
      StripPlain(s[1..]);
      assert s == [s[0]] + s[1..];
    }
  }

  lemma StripPlainWhen(s: string)
    ensures Esc !in s ==> StripAnsi(s) == s
  {
    if Esc !in s {
      StripPlain(s);
    }
  }

  /** A leading escape sequence vanishes. */
  lemma SgrPrefix(params: string, t: string)
    requires forall k :: 0 <= k < |params| ==> IsParam(params[k])
    ensures StripAnsi(Sgr(params) + t) == StripAnsi(t)
  {
    var s := Sgr(params) + t;
    assert s[2..] == params + (['m'] + t);
    ParamRunPrefix(params, ['m'] + t);
    assert s[MatchLen(s)..] == t;
  }

  lemma {:induction false} ParamRunPrefix(params: string, t: string)
    requires forall k :: 0 <= k < |params| ==> IsParam(params[k])
    requires |t| > 0 && !IsParam(t[0])
    ensures ParamRun(params + t) == |params|
  {
    if |params| > 0 {
      assert (params + t)[1..] == params[1..] + t;
      ParamRunPrefix(params[1..], t);
    } else {
      assert params + t == t;
    }
  }

  /** A parameter run stops before a text that cannot continue it. */
  lemma {:induction false} ParamRunAppend(a: string, t: string)
    requires |t| == 0 || !IsParam(t[0])
    ensures ParamRun(a + t) == ParamRun(a)
  {
    if |a| == 0 {
      assert a + t == t;
    } else {
      assert (a + t)[1..] == a[1..] + t;
      ParamRunAppend(a[1..], t);
    }
  }

  /** A match starting inside `p` cannot run into a text that starts with
      ESC, since ESC occurs only at the start of a sequence. */
  lemma MatchLenAppend(p: string, t: string)
    requires |p| > 0
    requires |t| == 0 || t[0] == Esc
    ensures MatchLen(p + t) == MatchLen(p)
  {
    var s := p + t;
    if |p| >= 2 && p[0] == Esc && p[1] == '[' {
      assert s[2..] == p[2..] + t;
      ParamRunAppend(p[2..], t);
    }
  }

  /** Stripping distributes over a boundary where an escape begins. */
  lemma {:induction false} StripAppend(p: string, t: string)
    requires |t| == 0 || t[0] == Esc
    ensures StripAnsi(p + t) == StripAnsi(p) + StripAnsi(t)
    decreases |p|
  {
    if |p| == 0 {
      assert p + t == t;
    } else {
      MatchLenAppend(p, t);
      var n := MatchLen(p);
      if n > 0 {
        assert (p + t)[n..] == p[n..] + t;
        StripAppend(p[n..], t);
      } else {
        assert (p + t)[1..] == p[1..] + t;
        StripAppend(p[1..], t);
      }
    }
  }

  /** Colour wrapping as the colour library does it: the attribute's
      sequence, the text, and the reset sequence. */
  function Paint(code: string, text: string): (r: string)
    requires forall k :: 0 <= k < |code| ==> IsParam(code[k])
    ensures StripAnsi(r) == StripAnsi(text)
  {
    var r := Sgr(code) + text + Sgr("0");
    assert r == Sgr(code) + (text + Sgr("0"));
    SgrPrefix(code, text + Sgr("0"));
    StripAppend(text, Sgr("0"));
    SgrPrefix("0", []);
    assert Sgr("0") + [] == Sgr("0");
    r
  }

  /** Painted text without ESC of its own strips back to itself. */
  lemma PaintStrips(code: string, text: string)
    requires forall k :: 0 <= k < |code| ==> IsParam(code[k])
    requires Esc !in text
    ensures StripAnsi(Paint(code, text)) == text
  {
    StripPlain(text);
  }

  /** Stripping is not idempotent: deleting one sequence can join an ESC
      before it to the text after it into a new sequence. */
  lemma StripNotIdempotent()
    ensures var s := [Esc, Esc, '[', 'm', '[', 'm'];
            StripAnsi(StripAnsi(s)) != StripAnsi(s)
  {
    var s := [Esc, Esc, '[', 'm', '[', 'm'];
    assert MatchLen(s) == 0;
    assert MatchLen(s[1..]) == 3;
    assert s[1..][3..] == ['[', 'm'];
    StripPlain(['[', 'm']);
    assert StripAnsi(s) == [Esc, '[', 'm'];
    var once := [Esc, '[', 'm'];
    assert MatchLen(once) == 3;
  }

  // ---------------------------------------------------------------- width

  /** A per-character display width that counts printable ASCII as one cell. */
  ghost predicate NarrowAscii(w: char -> nat) {
    forall c: char :: ' ' <= c <= '~' ==> w(c) == 1
  }

  /** The display width of a text: the sum of its characters' widths. */
  function Width(w: char -> nat, s: string): nat
  {
    if |s| == 0 then 0 else w(s[0]) + Width(w, s[1..])
  }

  lemma {:induction false} WidthAppend(w: char -> nat, a: string, b: string)
    ensures Width(w, a + b) == Width(w, a) + Width(w, b)
  {
    if |a| == 0 {
      assert a + b == b;
    } else {
      assert (a + b)[1..] == a[1..] + b;
      WidthAppend(w, a[1..], b);
    }
  }

  /** Printable ASCII is one cell per character. */
  lemma {:induction false} WidthAscii(w: char -> nat, s: string)
    requires NarrowAscii(w)
    requires forall k :: 0 <= k < |s| ==> ' ' <= s[k] <= '~'
    ensures Width(w, s) == |s|
  {
    if |s| > 0 {
      WidthAscii(w, s[1..]);
    }
  }

  /** `WidthFunc`: the width of what remains once escapes are stripped. */
  function WidthFunc(w: char -> nat, s: string): (n: nat)
    ensures Esc !in s ==> n == Width(w, s)
  {
    StripPlainWhen(s);
    Width(w, StripAnsi(s))
  }

  /** Colour does not change the width of a painted text. */
  lemma PaintWidth(w: char -> nat, code: string, text: string)
    requires forall k :: 0 <= k < |code| ==> IsParam(code[k])
    ensures WidthFunc(w, Paint(code, text)) == WidthFunc(w, text)
  {
  }

  /** The three width examples of the width function's documentation. */
  lemma WidthExamples(w: char -> nat)
    requires NarrowAscii(w)
    ensures WidthFunc(w, "hello") == 5
    ensures WidthFunc(w, Paint("31", "red")) == 3
    ensures WidthFunc(w, "") == 0
  {
    WidthAscii(w, "hello");
    WidthAscii(w, "red");
    PaintStrips("31", "red");
  }
}
