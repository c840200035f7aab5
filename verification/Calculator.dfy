/** The calculator of `calculator.c`: what a button does to its state, and its history. */
module Calculator {
  import opened Machine
  import opened Decimal

  const HISTORY_SIZE := 20
  const LINE_SIZE := 64
  const DISPLAY_SIZE := 64

  /** `operation` is zero while none is chosen. */
  datatype State = State(display: string, preview: string, accumulator: int, current: int, operation: char,
                         newInput: bool, hasDecimal: bool, decimalPlaces: int, scientific: bool)

  function Start(): State {
    State("0", "", 0, 0, '\0', true, false, 0, false)
  }

  predicate IsDigitButton(btn: string) {
    btn != [] && IsDigit(btn[0])
  }

  predicate IsOperator(btn: string) {
    btn == "+" || btn == "-" || btn == "X" || btn == "/"
  }

  /** Division in C: toward zero. */
  function Quotient(a: int, b: int): int
    requires b != 0
  {
    if a >= 0 then a / b else -(-a / b)
  }

  /** The exact result of an operation; a division by zero gives zero. */
  function Exact(a: int, op: char, b: int): int {
    match op
    case '+' => a + b
    case '-' => a - b
    case 'X' => a * b
    case '/' => if b != 0 then Quotient(a, b) else 0
    case _ => 0
  }

  function Result(s: State): int {
    Signed64(Exact(s.accumulator, s.operation, s.current))
  }

  function Operands(s: State): string {
    Text(Signed32(s.accumulator)) + " " + [s.operation] + " " + Text(Signed32(s.current)) + " = "
  }

  function Cleared(s: State): State {
    s.(display := "0", current := 0, newInput := true, hasDecimal := false, decimalPlaces := 0)
  }

  function Typed(s: State, btn: string): State
    requires IsDigitButton(btn)
  {
    var d := DigitValue(btn[0]);
    if s.newInput || s.display == "0" then s.(display := btn, current := d, newInput := false)
    else s.(display := s.display + btn, current := Signed64(s.current * 10 + d))
  }

  function Chosen(s: State, op: char): State {
    s.(accumulator := s.current, operation := op, newInput := true, hasDecimal := false, decimalPlaces := 0,
       preview := Text(Signed32(s.current)) + " " + [op] + " ")
  }

  function Calculated(s: State): State {
    s.(current := Result(s), display := Printed(Result(s)), operation := '\0', newInput := true, preview := "")
  }

  function Press(s: State, btn: string): State {
    if btn == "M" then s.(scientific := !s.scientific)
    else if btn == "C" then Cleared(s).(preview := "", accumulator := 0, operation := '\0')
    else if btn == "CE" then Cleared(s)
    else if IsDigitButton(btn) then Typed(s, btn)
    else if btn == "." then
      if s.hasDecimal then s
      else s.(display := s.display + ".", hasDecimal := true, decimalPlaces := 0, newInput := false)
    else if IsOperator(btn) then Chosen(s, btn[0])
    else if btn == "=" && s.operation != '\0' then Calculated(s)
    else s
  }

  /** The line a button adds to the history. */
  function Line(s: State, btn: string): Option<string> {
    if btn == "=" && s.operation != '\0' then Some(Operands(s) + Printed(Result(s))) else None
  }

  function Run(s: State, btns: seq<string>): State {
    if btns == [] then s else Press(Run(s, btns[..|btns| - 1]), btns[|btns| - 1])
  }

  // ---------- The display ----------

  /** The display shows the current value, and what is being typed has no sign. */
  predicate Shows(s: State) {
    Int64(s.current) && s.display == Text(s.current) && (!s.newInput ==> 0 <= s.current)
  }

  predicate IsButton(btn: string) {
    IsDigitButton(btn) ==> |btn| == 1
  }

  /** No new decimal point, no digit too many, and not the one result that cannot be printed. */
  predicate Safe(s: State, btn: string) {
    if btn == "." then s.hasDecimal
    else if IsDigitButton(btn) then
      s.newInput || s.display == "0" || s.current * 10 + DigitValue(btn[0]) <= INT64_MAX
    else btn == "=" && s.operation != '\0' ==> Result(s) != INT64_MIN
  }

  lemma PointSpoils(v: int)
    ensures Text(v) + "." != Text(v)
  {
    assert |Text(v) + "."| == |Text(v)| + 1;
  }

  lemma AppendedShows(v: int, d: int)
    requires 0 < v && 0 <= d < 10
    ensures Text(v) + [DigitChar(d)] == Text(Signed64(v * 10 + d)) <==> v * 10 + d <= INT64_MAX
  {
    TextOfNext(v, d);
    if Text(v * 10 + d) == Text(Signed64(v * 10 + d)) {
      TextInjective(v * 10 + d, Signed64(v * 10 + d));
    }
  }

  lemma TypedShows(s: State, btn: string)
    requires Shows(s) && IsDigitButton(btn) && |btn| == 1
    ensures Shows(Typed(s, btn)) <==> Safe(s, btn)
  {
    var d := DigitValue(btn[0]);
    assert btn == [DigitChar(d)] == Text(d);
    if !s.newInput && s.display != "0" {
      DigitsCanonical(s.current);
      AppendedShows(s.current, d);
    }
  }

  lemma CalculatedShows(s: State)
    requires Shows(s)
    ensures Shows(Calculated(s)) <==> Result(s) != INT64_MIN
  {
    if Result(s) == INT64_MIN { ParseText(INT64_MIN); }
  }

  /** The display goes on showing the current value exactly when the button is safe. */
  lemma PressShows(s: State, btn: string)
    requires Shows(s) && IsButton(btn)
    ensures Shows(Press(s, btn)) <==> Safe(s, btn)
  {
    if IsDigitButton(btn) {
      assert Press(s, btn) == Typed(s, btn);
      TypedShows(s, btn);
    } else if btn == "=" {
      EqualsShows(s);
    } else if btn == "." {
      PointSpoils(s.current);
    } else if IsOperator(btn) {
      assert Press(s, btn) == Chosen(s, btn[0]);
    }
  }

  lemma EqualsShows(s: State)
    requires Shows(s)
    ensures Shows(Press(s, "=")) <==> Safe(s, "=")
  {
    EqualsPresses(s);
    CalculatedShows(s);
  }

  lemma EqualsPresses(s: State)
    ensures Press(s, "=") == if s.operation != '\0' then Calculated(s) else s
    ensures Safe(s, "=") <==> (s.operation != '\0' ==> Result(s) != INT64_MIN)
  {
    assert !IsDigitButton("=") && !IsOperator("=");
  }

  ghost predicate SafeRun(s: State, btns: seq<string>) {
    forall i {:trigger btns[i]} :: 0 <= i < |btns| ==> IsButton(btns[i]) && Safe(Run(s, btns[..i]), btns[i])
  }

  /** Through every run of safe buttons the display shows the current value, within its buffer. */
  lemma {:induction false} RunShows(s: State, btns: seq<string>)
    requires Shows(s) && SafeRun(s, btns)
    ensures Shows(Run(s, btns)) && |Run(s, btns).display| < DISPLAY_SIZE
  {
    if btns != [] {
      var m := |btns| - 1;
      assert SafeRun(s, btns[..m]) by {
        forall i | 0 <= i < m ensures IsButton(btns[..m][i]) && Safe(Run(s, btns[..m][..i]), btns[..m][i]) {
          assert btns[..m][..i] == btns[..i] && btns[..m][i] == btns[i];
        }
      }
      RunShows(s, btns[..m]);
      assert Safe(Run(s, btns[..m]), btns[m]);
      PressShows(Run(s, btns[..m]), btns[m]);
    }
    TextFits(Run(s, btns).current);
  }

  // ---------- The room for the display ----------

  /** The button adds a character to what the display shows. */
  predicate Appends(s: State, btn: string) {
    if IsDigitButton(btn) then !s.newInput && s.display != "0" else btn == "." && !s.hasDecimal
  }

  lemma TypedLength(s: State, btn: string)
    requires IsDigitButton(btn) && |btn| == 1
    ensures |Press(s, btn).display| == if Appends(s, btn) then |s.display| + 1 else 1
  {
    assert Press(s, btn) == Typed(s, btn);
  }

  lemma PressLength(s: State, btn: string)
    requires IsButton(btn) && !IsDigitButton(btn)
    ensures |Press(s, btn).display| <= |s.display| + (if Appends(s, btn) then 1 else 0) || |Press(s, btn).display| <= 20
    ensures Appends(s, btn) ==> |Press(s, btn).display| == |s.display| + 1
  {
    if btn == "=" {
      EqualsPresses(s);
      TextFits(Result(s));
    }
  }

  /** The text and its terminating zero stay within the display buffer exactly if no press adds a character to
      63 of them. */
  lemma PressFits(s: State, btn: string)
    requires |s.display| < DISPLAY_SIZE && IsButton(btn)
    ensures |Press(s, btn).display| < DISPLAY_SIZE <==> !(Appends(s, btn) && |s.display| == DISPLAY_SIZE - 1)
  {
    if IsDigitButton(btn) { TypedLength(s, btn); } else { PressLength(s, btn); }
  }

  function After(s: State, btns: seq<string>, i: nat): State
    requires i <= |btns|
  {
    Run(s, btns[..i])
  }

  /** Press `i` of a run adds a character to a display that has no room for it. */
  predicate Overruns(s: State, btns: seq<string>, i: nat)
    requires i < |btns|
  {
    Appends(After(s, btns, i), btns[i]) && |After(s, btns, i).display| == DISPLAY_SIZE - 1
  }

  /** A run stays within the buffer all the time exactly if no press of it overruns. */
  lemma {:induction false} RunFits(s: State, btns: seq<string>)
    requires |s.display| < DISPLAY_SIZE && forall i {:trigger btns[i]} :: 0 <= i < |btns| ==> IsButton(btns[i])
    ensures (forall i: nat {:trigger After(s, btns, i)} :: i <= |btns| ==>
        |After(s, btns, i).display| < DISPLAY_SIZE) <==>
            (forall i: nat {:trigger Overruns(s, btns, i)} :: i < |btns| ==> !Overruns(s, btns, i))
  {
    if i: nat :| i < |btns| && Overruns(s, btns, i) {
      AfterNext(s, btns, i);
      PressFits(After(s, btns, i), btns[i]);
      assert |After(s, btns, i + 1).display| >= DISPLAY_SIZE;
    } else {
      forall i: nat {:trigger After(s, btns, i)} | i <= |btns| ensures |After(s, btns, i).display| < DISPLAY_SIZE {
        FitsUpTo(s, btns, i);
      }
    }
  }

  lemma AfterNext(s: State, btns: seq<string>, i: nat)
    requires i < |btns|
    ensures After(s, btns, i + 1) == Press(After(s, btns, i), btns[i])
  {
    assert btns[..i + 1][..i] == btns[..i];
  }

  lemma {:induction false} FitsUpTo(s: State, btns: seq<string>, n: nat)
    requires |s.display| < DISPLAY_SIZE && forall i {:trigger btns[i]} :: 0 <= i < |btns| ==> IsButton(btns[i])
    requires n <= |btns| && forall i: nat {:trigger Overruns(s, btns, i)} :: i < |btns| ==> !Overruns(s, btns, i)
    ensures |After(s, btns, n).display| < DISPLAY_SIZE
  {
    if n > 0 {
      FitsUpTo(s, btns, n - 1);
      AfterNext(s, btns, n - 1);
      assert !Overruns(s, btns, n - 1);
      PressFits(After(s, btns, n - 1), btns[n - 1]);
    }
  }

  /** Typing the same digit grows the display by one each time, without an end: 64 of them overrun it. */
  lemma {:induction false} DigitsOverrun(n: nat)
    ensures var s := Run(Start(), seq(n + 1, _ => "1")); |s.display| == n + 1 && !s.newInput && s.display[0] == '1'
  {
    var btns := seq(n + 1, _ => "1");
    assert btns[..n] == seq(n, _ => "1") && btns[n] == "1";
    if n == 0 {
      assert Run(Start(), btns[..0]) == Start();
    } else {
      DigitsOverrun(n - 1);
    }
    assert Press(Run(Start(), btns[..n]), "1") == Typed(Run(Start(), btns[..n]), "1");
  }

  // ---------- Whole calculations ----------

  /** The buttons that type a number. */
  function Buttons(digits: string): (r: seq<string>)
    ensures |r| == |digits|
  {
    seq(|digits|, i requires 0 <= i < |digits| => [digits[i]])
  }

  lemma {:induction false} RunAppend(s: State, a: seq<string>, b: seq<string>)
    ensures Run(s, a + b) == Run(Run(s, a), b)
  {
    if b == [] {
      assert a + b == a;
    } else {
      RunAppend(s, a, b[..|b| - 1]);
      assert (a + b)[..|a + b| - 1] == a + b[..|b| - 1];
    }
  }

  /** Typing the digits of a number enters it. */
  lemma {:induction false} TypesNumber(s: State, n: nat)
    requires s.newInput && n <= INT64_MAX
    ensures Run(s, Buttons(Digits(n))) == s.(display := Text(n), current := n, newInput := false)
  {
    var btns := Buttons(Digits(n));
    if n < 10 {
      assert btns[..0] == [] && btns[0] == [DigitChar(n)];
    } else {
      var digits := Digits(n / 10);
      TypesNumber(s, n / 10);
      assert btns[..|btns| - 1] == Buttons(digits) && btns[|btns| - 1] == [DigitChar(n % 10)];
      DigitsCanonical(n / 10);
    }
  }

  /** The state in which a calculation waits for its result. */
  function Entered(s: State, a: nat, op: char, b: nat): State {
    Run(s, Buttons(Digits(a)) + [[op]] + Buttons(Digits(b)))
  }

  lemma TypesCalculation(s: State, a: nat, op: char, b: nat)
    requires s.newInput && a <= INT64_MAX && b <= INT64_MAX && IsOperator([op])
    ensures var entered := Entered(s, a, op, b);
            entered.accumulator == a && entered.operation == op && entered.current == b
  {
    var btns := Buttons(Digits(a));
    TypesNumber(s, a);
    RunAppend(s, btns, [[op]]);
    var chosen := Run(s, btns + [[op]]);
    assert [[op]][..0] == [];
    assert chosen == Chosen(Run(s, btns), op);
    RunAppend(s, btns + [[op]], Buttons(Digits(b)));
    TypesNumber(chosen, b);
  }

  lemma CalculatesExactly(s: State)
    requires Int64(Exact(s.accumulator, s.operation, s.current)) && s.operation != '\0'
    ensures Press(s, "=") == Calculated(s) && Result(s) == Exact(s.accumulator, s.operation, s.current)
  {
  }

  /** A calculation typed in full: the display shows its result, and the history tells it. */
  lemma Computes(s: State, a: nat, op: char, b: nat)
    requires s.newInput && a <= INT64_MAX && b <= INT64_MAX && IsOperator([op])
    requires Int64(Exact(a, op, b)) && Exact(a, op, b) != INT64_MIN
    ensures var t := Press(Entered(s, a, op, b), "=");
            t.display == Text(Exact(a, op, b)) && t.current == Exact(a, op, b)
    ensures a < 0x8000_0000 && b < 0x8000_0000 ==>
              Line(Entered(s, a, op, b), "=") ==
                Some(Text(a) + " " + [op] + " " + Text(b) + " = " + Text(Exact(a, op, b)))
  {
    TypesCalculation(s, a, op, b);
    CalculatesExactly(Entered(s, a, op, b));
  }

  // ---------- The history ----------

  lemma Text32Fits(v: int)
    requires -0x8000_0000 <= v < 0x8000_0000
    ensures |Text(v)| <= 11
  {
    assert Pow10(5) == 100000;
    assert Pow10(10) == 10000000000;
    DigitsFit(if v < 0 then -v else v, 10);
  }

  /** Every line fits into its buffer. */
  lemma LineFits(s: State, btn: string)
    requires Line(s, btn).Some?
    ensures |Line(s, btn).value| < LINE_SIZE
  {
    Text32Fits(Signed32(s.accumulator));
    Text32Fits(Signed32(s.current));
    TextFits(Result(s));
  }

  /** A printed operand is the one calculated with exactly when it fits into 32 bits. */
  lemma OperandTold(v: int)
    ensures Text(Signed32(v)) == Text(v) <==> -0x8000_0000 <= v < 0x8000_0000
  {
    if Text(Signed32(v)) == Text(v) { TextInjective(Signed32(v), v); }
  }

  class Calculator {
    var display: string
    var preview: string
    const history: array<string>
    var historyCount: nat
    var accumulator: int
    var current: int
    var operation: char
    var newInput: bool
    var hasDecimal: bool
    var decimalPlaces: int
    var scientific: bool
    ghost var log: seq<string>

    ghost function Now(): State
      reads this
    {
      State(display, preview, accumulator, current, operation, newInput, hasDecimal, decimalPlaces, scientific)
    }

    /** The history holds the last lines of the log, the newest first. */
    ghost predicate Valid()
      reads `historyCount, `log, history
    {
      && history.Length == HISTORY_SIZE
      && historyCount == (if |log| < HISTORY_SIZE then |log| else HISTORY_SIZE)
      && forall i :: 0 <= i < historyCount ==> history[i] == log[|log| - 1 - i]
    }

    constructor ()
      ensures Valid() && Now() == Start() && log == [] && fresh(history)
    {
      display, preview, accumulator, current, operation := "0", "", 0, 0, '\0';
      newInput, hasDecimal, decimalPlaces, scientific := true, false, 0, false;
      history, historyCount, log := new string[HISTORY_SIZE](_ => ""), 0, [];
    }

    /** Moves the first `n` lines down by one. */
    method Shift(n: nat)
      requires n < history.Length
      modifies history
      ensures forall i :: 0 < i <= n ==> history[i] == old(history[i - 1])
      ensures forall i :: n < i < history.Length ==> history[i] == old(history[i])
    {
      var i := n;
      while i > 0
        invariant 0 <= i <= n
        invariant forall j :: i < j <= n ==> history[j] == old(history[j - 1])
        invariant forall j :: 0 <= j <= i || n < j < history.Length ==> history[j] == old(history[j])
      {
        history[i] := history[i - 1];
        i := i - 1;
      }
    }

    method PutFirst(line: string, n: nat)
      requires n < history.Length
      modifies history
      ensures history[0] == line
      ensures forall i :: 0 < i <= n ==> history[i] == old(history[i - 1])
    {
      Shift(n);
      history[0] := line;
    }

    method AddHistory(line: string)
      requires Valid()
      modifies `historyCount, `log, history
      ensures Valid() && log == old(log) + [line]
    {
      if historyCount < HISTORY_SIZE {
        PutFirst(line, historyCount);
        historyCount := historyCount + 1;
      } else {
        PutFirst(line, HISTORY_SIZE - 1);
      }
      log := log + [line];
    }

    method Clear()
      modifies `display, `current, `newInput, `hasDecimal, `decimalPlaces
      ensures Now() == Cleared(old(Now()))
    {
      display, current := "0", 0;
      newInput, hasDecimal, decimalPlaces := true, false, 0;
    }

    method Type(btn: string)
      requires IsDigitButton(btn)
      modifies `display, `current, `newInput
      ensures Now() == Typed(old(Now()), btn)
    {
      if newInput || display == "0" {
        display, current, newInput := btn, DigitValue(btn[0]), false;
      } else {
        display := display + btn;
        current := Signed64(current * 10 + DigitValue(btn[0]));
      }
    }

    method Choose(op: char)
      modifies `accumulator, `operation, `newInput, `hasDecimal, `decimalPlaces, `preview
      ensures Now() == Chosen(old(Now()), op)
    {
      accumulator, operation := current, op;
      newInput, hasDecimal, decimalPlaces := true, false, 0;
      preview := Text(Signed32(accumulator)) + " " + [operation] + " ";
    }

    /** The result of the chosen operation. */
    method Compute() returns (result: int)
      ensures result == Result(Now())
    {
      result := 0;
      match operation {
        case '+' => result := Signed64(accumulator + current);
        case '-' => result := Signed64(accumulator - current);
        case 'X' => result := Signed64(accumulator * current);
        case '/' => result := if current != 0 then Signed64(Quotient(accumulator, current)) else 0;
        case _ =>
      }
    }

    method Print(val: int) returns (text: string)
      requires Int64(val)
      ensures text == Printed(val)
    {
      var buf := new char[LINE_SIZE];
      IntToStr(val, buf);
      text := CString(buf[..]);
    }

    method Calculate()
      requires Valid() && operation != '\0'
      modifies `display, `current, `operation, `newInput, `preview, `historyCount, `log, history
      ensures Valid() && Now() == Calculated(old(Now()))
      ensures log == old(log) + [Operands(old(Now())) + Printed(Result(old(Now())))]
    {
      var line := Text(Signed32(accumulator)) + " " + [operation] + " " + Text(Signed32(current)) + " = ";
      var result := Compute();
      current := result;
      display := Print(result);
      operation, newInput, preview := '\0', true, "";
      var text := Print(result);
      AddHistory(line + text);
    }

    method Point()
      modifies `display, `hasDecimal, `decimalPlaces, `newInput
      ensures Now() == Press(old(Now()), ".")
    {
      if !hasDecimal {
        display := display + ".";
        hasDecimal, decimalPlaces, newInput := true, 0, false;
      }
    }

    /** The buttons that leave the history alone. */
    method Enter(btn: string)
      requires btn != "="
      modifies `display, `current, `newInput, `hasDecimal, `decimalPlaces, `accumulator, `operation, `preview,
          `scientific
      ensures Now() == Press(old(Now()), btn)
    {
      if btn == "M" {
        scientific := !scientific;
      } else if btn == "C" {
        Clear();
        preview, accumulator, operation := "", 0, '\0';
      } else if btn == "CE" {
        Clear();
      } else if btn != [] && IsDigit(btn[0]) {
        Type(btn);
      } else if btn == "." {
        Point();
      } else if btn == "+" || btn == "-" || btn == "X" || btn == "/" {
        Choose(btn[0]);
      }
    }

    method HandleButton(btn: string)
      requires Valid()
      modifies this, history
      ensures Valid() && Now() == Press(old(Now()), btn)
      ensures log == old(log) + match Line(old(Now()), btn) case Some(line) => [line] case None => []
    {
      if btn == "=" {
        if operation != '\0' { Calculate(); }
      } else {
        Enter(btn);
      }
    }
  }
}
