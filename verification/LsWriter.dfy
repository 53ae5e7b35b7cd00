/** The output buffer of the LeekScript printer and its token-merge guard,
    `crates/backends/leek-backend-leekscript/src/writer.rs`. */
module LsWriter {
  import opened Options

  predicate IsOpChar(c: char) {
    c in {'+', '-', '*', '/', '\\', '%', '<', '>', '=', '!', '&', '|', '^', '~', '?', ':', '@'}
  }

  predicate IsBlank(c: char) { c in {' ', '\t', '\n', '\r'} }

  /** What a writer is configured with; `alnum` is the Unicode test `char::is_alphanumeric`. */
  datatype Config = Config(indentUnit: string, compact: bool, alnum: char -> bool) {
    predicate IsWordChar(c: char) { alnum(c) || c == '_' }

    predicate NeedsSeparator(prev: char, next: char) {
      (IsWordChar(prev) && IsWordChar(next)) || (IsOpChar(prev) && IsOpChar(next))
    }

    /** Operator and blank characters are not alphanumeric; the indent unit is blank. */
    ghost predicate Valid() {
      && (forall c :: IsOpChar(c) || IsBlank(c) ==> !alnum(c))
      && (forall i :: 0 <= i < |indentUnit| ==> IsBlank(indentUnit[i]))
    }
  }

  // ---- The writer as a function on values ----

  datatype State = State(out: string, indentLevel: nat, last: Option<char>, atLineStart: bool)

  const EMPTY := State("", 0, None, false)

  datatype Call = Token(s: string) | Space | Newline | Indent | Dedent

  function Repeat(unit: string, n: nat): string {
    if n == 0 then "" else Repeat(unit, n - 1) + unit
  }

  function LastOr(s: string, default: char): char {
    if s == "" then default else s[|s| - 1]
  }

  /** Pending indentation is written in front of the next token. */
  function Flushed(cfg: Config, st: State): State {
    if !st.atLineStart then st
    else State(st.out + Repeat(cfg.indentUnit, st.indentLevel), st.indentLevel,
               Some(LastOr(cfg.indentUnit, '\n')), false)
  }

  /** A separating space where two tokens would fuse. */
  function Guarded(cfg: Config, st: State, first: char): State {
    if st.last.Some? && cfg.NeedsSeparator(st.last.value, first)
    then st.(out := st.out + " ", last := Some(' ')) else st
  }

  function Step(cfg: Config, st: State, call: Call): State {
    match call
    case Token(s) =>
      if s == "" then st
      else
        var ready := Guarded(cfg, Flushed(cfg, st), s[0]);
        ready.(out := ready.out + s, last := Some(s[|s| - 1]))
    case Space =>
      if cfg.compact || st.atLineStart then st else st.(out := st.out + " ", last := Some(' '))
    case Newline =>
      if cfg.compact then st else st.(out := st.out + "\n", last := Some('\n'), atLineStart := true)
    case Indent => st.(indentLevel := st.indentLevel + 1)
    case Dedent => st.(indentLevel := if st.indentLevel == 0 then 0 else st.indentLevel - 1)
  }

  function Run(cfg: Config, st: State, calls: seq<Call>): State
    decreases |calls|
  {
    if calls == [] then st else Run(cfg, Step(cfg, st, calls[0]), calls[1..])
  }

  function Finished(cfg: Config, st: State): string {
    if !cfg.compact && LastOr(st.out, ' ') != '\n' then st.out + "\n" else st.out
  }

  lemma {:induction false} RunConcat(cfg: Config, st: State, a: seq<Call>, b: seq<Call>)
    ensures Run(cfg, st, a + b) == Run(cfg, Run(cfg, st, a), b)
    decreases |a|
  {
    if a == [] {
      assert a + b == b;
    } else {
      assert (a + b)[1..] == a[1..] + b;
      RunConcat(cfg, Step(cfg, st, a[0]), a[1..], b);
    }
  }

  // ---- The merge guard: consecutive tokens never fuse ----

  ghost predicate AllBlank(s: string) { forall i :: 0 <= i < |s| ==> IsBlank(s[i]) }

  /** Writing `b` directly after `a` puts no two fusable characters side by side. */
  ghost predicate Separated(cfg: Config, a: string, b: string) {
    a == "" || b == "" || !cfg.NeedsSeparator(a[|a| - 1], b[0])
  }

  /** The remembered last character agrees with the buffer, up to which blank it is. */
  ghost predicate Consistent(st: State) {
    && (st.out == "" <==> st.last == None)
    && (st.last.Some? ==>
          var c := st.out[|st.out| - 1];
          st.last.value == c || (IsBlank(st.last.value) && IsBlank(c)))
    && (st.atLineStart ==> st.last == Some('\n'))
  }

  lemma {:induction false} RepeatIsBlank(unit: string, n: nat)
    requires AllBlank(unit)
    ensures AllBlank(Repeat(unit, n))
    ensures Repeat(unit, n) == "" <==> unit == "" || n == 0
    ensures Repeat(unit, n) != "" ==> LastOr(Repeat(unit, n), ' ') == LastOr(unit, ' ')
  {
    if n == 0 {
    } else {
      RepeatIsBlank(unit, n - 1);
    }
  }

  /** What a call adds: blanks, and for a token its text, placed so that it fuses with nothing. */
  ghost predicate Extends(cfg: Config, st: State, call: Call, st': State) {
    exists gap: string ::
      && AllBlank(gap)
      && st'.out == st.out + gap + (if call.Token? then call.s else "")
      && (call.Token? ==> Separated(cfg, st.out + gap, call.s))
  }

  lemma FlushExtends(cfg: Config, st: State) returns (pad: string)
    requires cfg.Valid() && Consistent(st)
    ensures AllBlank(pad) && Flushed(cfg, st).out == st.out + pad
    ensures Consistent(Flushed(cfg, st)) && !Flushed(cfg, st).atLineStart
  {
    pad := if st.atLineStart then Repeat(cfg.indentUnit, st.indentLevel) else "";
    RepeatIsBlank(cfg.indentUnit, st.indentLevel);
    hide Repeat;
    if pad == "" {
    } else {
      assert (st.out + pad)[|st.out + pad| - 1] == pad[|pad| - 1];
    }
  }

  lemma GuardExtends(cfg: Config, st: State, s: string) returns (pad: string)
    requires cfg.Valid() && Consistent(st) && !st.atLineStart && s != ""
    ensures AllBlank(pad) && Guarded(cfg, st, s[0]).out == st.out + pad
    ensures Separated(cfg, st.out + pad, s)
  {
    pad := if Guarded(cfg, st, s[0]) == st then "" else " ";
    if st.out + pad != "" {
      assert (st.out + pad)[|st.out + pad| - 1] == if pad == "" then st.out[|st.out| - 1] else ' ';
      assert IsBlank(' ') && !cfg.NeedsSeparator(' ', s[0]);
    }
  }

  lemma TokenExtends(cfg: Config, st: State, s: string)
    requires cfg.Valid() && Consistent(st) && s != ""
    ensures Consistent(Step(cfg, st, Token(s)))
    ensures Extends(cfg, st, Token(s), Step(cfg, st, Token(s)))
  {
    var pad1 := FlushExtends(cfg, st);
    var pad2 := GuardExtends(cfg, Flushed(cfg, st), s);
    hide Flushed, Repeat, Guarded;
    var st', gap := Step(cfg, st, Token(s)), pad1 + pad2;
    assert st.out + pad1 + pad2 == st.out + gap;
    assert st'.out == st.out + gap + s;
    assert st'.out[|st'.out| - 1] == s[|s| - 1];
  }

  lemma StepExtends(cfg: Config, st: State, call: Call)
    requires cfg.Valid() && Consistent(st)
    ensures Consistent(Step(cfg, st, call))
    ensures Extends(cfg, st, call, Step(cfg, st, call))
  {
    var st' := Step(cfg, st, call);
    match call
    case Token(s) =>
      if s == "" {
        assert st'.out == st.out + "" + s;
      } else {
        TokenExtends(cfg, st, s);
      }
    case Space => assert st'.out == st.out + (if st' == st then "" else " ") + "";
    case Newline => assert st'.out == st.out + (if st' == st then "" else "\n") + "";
    case Indent => assert st'.out == st.out + "" + "";
    case Dedent => assert st'.out == st.out + "" + "";
  }

  // ---- Splitting text into maximal runs ----

  /** Length of the maximal run of word characters, or of operator characters, at the front. */
  function RunLength(cfg: Config, s: string): (n: nat)
    requires s != ""
    ensures 1 <= n <= |s|
  {
    if |s| > 1 && cfg.NeedsSeparator(s[0], s[1]) then 1 + RunLength(cfg, s[1..]) else 1
  }

  /** Blanks dropped, word runs and operator runs kept whole, any other character alone. */
  function Runs(cfg: Config, s: string): seq<string> {
    if s == "" then []
    else if IsBlank(s[0]) then Runs(cfg, s[1..])
    else [s[..RunLength(cfg, s)]] + Runs(cfg, s[RunLength(cfg, s)..])
  }

  lemma {:induction false} RunLengthStops(cfg: Config, a: string, b: string)
    requires a != "" && Separated(cfg, a, b)
    ensures RunLength(cfg, a + b) == RunLength(cfg, a)
    decreases |a|
  {
    var ab := a + b;
    if |a| > 1 {
      assert ab[1..] == a[1..] + b && ab[0] == a[0] && ab[1] == a[1];
      if cfg.NeedsSeparator(a[0], a[1]) {
        RunLengthStops(cfg, a[1..], b);
      }
    } else if b != "" {
      assert ab[0] == a[0] && ab[1] == b[0];
    } else {
      assert ab == a;
    }
  }

  lemma {:induction false} RunsConcat(cfg: Config, a: string, b: string)
    requires Separated(cfg, a, b)
    ensures Runs(cfg, a + b) == Runs(cfg, a) + Runs(cfg, b)
    decreases |a|
  {
    var ab := a + b;
    if a == "" {
      assert ab == b;
    } else if IsBlank(a[0]) {
      assert ab[0] == a[0] && ab[1..] == a[1..] + b;
      RunsConcat(cfg, a[1..], b);
    } else {
      var k := RunLength(cfg, a);
      RunLengthStops(cfg, a, b);
      assert ab[0] == a[0] && ab[..k] == a[..k] && ab[k..] == a[k..] + b;
      RunsConcat(cfg, a[k..], b);
    }
  }

  lemma {:induction false} BlankHasNoRuns(cfg: Config, gap: string)
    requires AllBlank(gap)
    ensures Runs(cfg, gap) == []
  {
    if gap == "" {
    } else {
      BlankHasNoRuns(cfg, gap[1..]);
    }
  }

  lemma BlankSeparates(cfg: Config, a: string, gap: string)
    requires cfg.Valid() && AllBlank(gap)
    ensures Separated(cfg, a, gap)
  {
    if gap != "" { assert IsBlank(gap[0]); }
  }

  function CallRuns(cfg: Config, call: Call): seq<string> {
    if call.Token? then Runs(cfg, call.s) else []
  }

  /** The runs of all tokens of a call sequence, one token after the other. */
  function TokenRuns(cfg: Config, calls: seq<Call>): seq<string> {
    if calls == [] then [] else CallRuns(cfg, calls[0]) + TokenRuns(cfg, calls[1..])
  }

  lemma StepRuns(cfg: Config, st: State, call: Call)
    requires cfg.Valid() && Consistent(st)
    ensures Runs(cfg, Step(cfg, st, call).out) == Runs(cfg, st.out) + CallRuns(cfg, call)
  {
    hide Separated, AllBlank, Step, Runs, Consistent;
    StepExtends(cfg, st, call);
    var s := if call.Token? then call.s else "";
    var gap :| AllBlank(gap) && Step(cfg, st, call).out == st.out + gap + s
               && (call.Token? ==> Separated(cfg, st.out + gap, s));
    BlankSeparates(cfg, st.out, gap);
    RunsConcat(cfg, st.out, gap);
    BlankHasNoRuns(cfg, gap);
    RunsConcat(cfg, st.out + gap, s);
    if !call.Token? { BlankHasNoRuns(cfg, s); }
  }

  /** For every call sequence the finished text splits into exactly the tokens' own runs. */
  lemma {:induction false} OutputSplitsIntoTokens(cfg: Config, st: State, calls: seq<Call>)
    requires cfg.Valid() && Consistent(st)
    ensures Consistent(Run(cfg, st, calls))
    ensures Runs(cfg, Finished(cfg, Run(cfg, st, calls))) == Runs(cfg, st.out) + TokenRuns(cfg, calls)
    decreases |calls|
  {
    hide Step, Runs, CallRuns, Finished, Consistent, Extends;
    if calls == [] {
      FinishedRuns(cfg, st);
    } else {
      StepExtends(cfg, st, calls[0]);
      StepRuns(cfg, st, calls[0]);
      OutputSplitsIntoTokens(cfg, Step(cfg, st, calls[0]), calls[1..]);
    }
  }

  lemma FinishedRuns(cfg: Config, st: State)
    requires cfg.Valid()
    ensures Runs(cfg, Finished(cfg, st)) == Runs(cfg, st.out)
  {
    if Finished(cfg, st) != st.out {
      hide Runs;
      BlankSeparates(cfg, st.out, "\n");
      RunsConcat(cfg, st.out, "\n");
      BlankHasNoRuns(cfg, "\n");
    }
  }

  /** Compact and pretty output, under any blank indent units, carry the same runs. */
  lemma CompactAndPrettyAgree(cfg: Config, other: Config, calls: seq<Call>)
    requires cfg.Valid() && other.Valid() && cfg.alnum == other.alnum
    ensures Runs(cfg, Finished(cfg, Run(cfg, EMPTY, calls)))
         == Runs(cfg, Finished(other, Run(other, EMPTY, calls)))
  {
    OutputSplitsIntoTokens(cfg, EMPTY, calls);
    OutputSplitsIntoTokens(other, EMPTY, calls);
    SameRuns(cfg, other, Finished(other, Run(other, EMPTY, calls)));
    SameTokenRuns(cfg, other, calls);
  }

  lemma {:induction false} SameRuns(cfg: Config, other: Config, s: string)
    requires cfg.alnum == other.alnum
    ensures Runs(cfg, s) == Runs(other, s)
  {
    if s == "" {
    } else {
      SameRunLength(cfg, other, s);
      SameRuns(cfg, other, if IsBlank(s[0]) then s[1..] else s[RunLength(cfg, s)..]);
    }
  }

  lemma {:induction false} SameRunLength(cfg: Config, other: Config, s: string)
    requires cfg.alnum == other.alnum && s != ""
    ensures RunLength(cfg, s) == RunLength(other, s)
  {
    if |s| <= 1 {
    } else {
      SameRunLength(cfg, other, s[1..]);
    }
  }

  lemma {:induction false} SameTokenRuns(cfg: Config, other: Config, calls: seq<Call>)
    requires cfg.alnum == other.alnum
    ensures TokenRuns(cfg, calls) == TokenRuns(other, calls)
  {
    if calls == [] {
    } else {
      if calls[0].Token? { SameRuns(cfg, other, calls[0].s); }
      SameTokenRuns(cfg, other, calls[1..]);
    }
  }

  // ---- The writer as the object the emitter drives ----

  class Writer {
    const cfg: Config
    var out: string
    var indentLevel: nat
    /** What the next token must not fuse with. */
    var last: Option<char>
    /** Indentation is still owed to the next token. */
    var atLineStart: bool

    ghost function View(): State
      reads this
    {
      State(out, indentLevel, last, atLineStart)
    }

    constructor (indentUnit: string, compact: bool, alnum: char -> bool)
      ensures View() == EMPTY && cfg == Config(indentUnit, compact, alnum)
    {
      cfg := Config(indentUnit, compact, alnum);
      out, indentLevel, last, atLineStart := "", 0, None, false;
    }

    method PushRaw(s: string)
      modifies this`out, this`last
      ensures out == old(out) + s
      ensures last == if s == "" then old(last) else Some(s[|s| - 1])
    {
      if s != "" {
        last := Some(s[|s| - 1]);
      }
      out := out + s;
    }

    method Token(s: string)
      modifies this
      ensures View() == Step(cfg, old(View()), Call.Token(s))
    {
      if s == "" {
        return;
      }
      if atLineStart {
        atLineStart := false;
        for i := 0 to indentLevel
          invariant out == old(out) + Repeat(cfg.indentUnit, i)
          invariant indentLevel == old(indentLevel) && last == old(last) && !atLineStart
        {
          out := out + cfg.indentUnit;
        }
        last := Some(LastOr(cfg.indentUnit, '\n'));
      }
      var first := s[0];
      if last.Some? && cfg.NeedsSeparator(last.value, first) {
        out := out + " ";
        last := Some(' ');
      }
      PushRaw(s);
    }

    method Space()
      modifies this
      ensures View() == Step(cfg, old(View()), Call.Space)
    {
      if cfg.compact {
        return;
      }
      if !atLineStart {
        out := out + " ";
        last := Some(' ');
      }
    }

    method Newline()
      modifies this
      ensures View() == Step(cfg, old(View()), Call.Newline)
    {
      if cfg.compact {
        return;
      }
      out := out + "\n";
      last := Some('\n');
      atLineStart := true;
    }

    method Indent()
      modifies this
      ensures View() == Step(cfg, old(View()), Call.Indent)
    {
      indentLevel := indentLevel + 1;
    }

    method Dedent()
      modifies this
      ensures View() == Step(cfg, old(View()), Call.Dedent)
    {
      indentLevel := if indentLevel == 0 then 0 else indentLevel - 1;
    }

    method IntoString() returns (s: string)
      ensures s == Finished(cfg, View())
    {
      if !cfg.compact && LastOr(out, ' ') != '\n' {
        return out + "\n";
      }
      return out;
    }
  }
}
