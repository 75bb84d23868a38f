/**
 * `src/cli_handler.rs`: classifying the command line and colouring output.
 * The process-wide colour flag is passed in and returned explicitly; it
 * starts out true.
 */
module CliHandler {

  datatype CliMode = Help | GetHash | Validate | Error

  datatype CliColor = Default | Blue | Yellow | Green | Red

  /** The mode chosen and the colour flag afterwards. */
  datatype Classified = Classified(mode: CliMode, colorMode: bool)

  /** The colour flag's initial value. */
  const InitialColorMode := true

  /** A trailing argument that turns colour off. */
  predicate IsColorFlag(a: string) {
    a == "no" || a == "nocolor"
  }

  predicate IsHelpWord(a: string) {
    a == "-h" || a == "--help" || a == "help"
  }

  /** Some argument is not a colour flag, so stripping flags never empties the list. */
  predicate HasOperand(args: seq<string>) {
    exists i | 0 <= i < |args| :: !IsColorFlag(args[i])
  }

  /** `n` arguments remain once the trailing colour flags are stripped. */
  predicate IsStripped(args: seq<string>, n: nat) {
    0 < n <= |args| && !IsColorFlag(args[n - 1]) && forall j | n <= j < |args| :: IsColorFlag(args[j])
  }

  /**
   * `args_handler`: strips trailing colour flags one per call, each turning
   * colour off, then classifies by the number of arguments left.
   */
  function ArgsHandler(args: seq<string>, colorMode: bool): (r: Classified)
    requires HasOperand(args)
    decreases |args|
    ensures r.colorMode == (colorMode && !IsColorFlag(args[|args| - 1]))
    ensures forall n: nat | IsStripped(args, n) :: r.mode == Help <==> n == 2 && IsHelpWord(args[1])
    ensures forall n: nat | IsStripped(args, n) :: r.mode == GetHash <==> n == 3
    ensures forall n: nat | IsStripped(args, n) :: r.mode == Validate <==> n == 4
    ensures forall n: nat | IsStripped(args, n) ::
              r.mode == Error <==> !(n == 2 && IsHelpWord(args[1])) && n != 3 && n != 4
  {
    var last := |args| - 1;
    if IsColorFlag(args[last]) then
      assert HasOperand(args[..last]) by {
        var i :| 0 <= i < |args| && !IsColorFlag(args[i]);
        assert args[..last][i] == args[i];
      }
      assert forall n: nat | IsStripped(args, n) :: IsStripped(args[..last], n) by {
        forall n: nat | IsStripped(args, n) ensures IsStripped(args[..last], n) {
          assert n - 1 < last;
        }
      }
      ArgsHandler(args[..last], false)
    else
      var mode :=
        if |args| == 2 && IsHelpWord(args[1]) then Help
        else if |args| == 3 then GetHash
        else if |args| == 4 then Validate
        else Error;
      Classified(mode, colorMode)
  }

  /**
   * Colour, on at start-up, stays on exactly when the command line does not
   * end with a colour flag.
   */
  lemma ColorStaysOnWithoutFlags(args: seq<string>)
    requires HasOperand(args)
    ensures ArgsHandler(args, InitialColorMode).colorMode <==> !IsColorFlag(args[|args| - 1])
  {
  }

  /** Under the precondition there is exactly one stripped length. */
  lemma {:induction false} StrippedExists(args: seq<string>)
    requires HasOperand(args)
    ensures exists n: nat :: IsStripped(args, n)
    decreases |args|
  {
    var last := |args| - 1;
    if IsColorFlag(args[last]) {
      var i :| 0 <= i < |args| && !IsColorFlag(args[i]);
      assert args[..last][i] == args[i];
      StrippedExists(args[..last]);
      var n: nat :| IsStripped(args[..last], n);
      assert IsStripped(args, n);
    } else {
      assert IsStripped(args, |args|);
    }
  }

  lemma StrippedUnique(args: seq<string>, n: nat, m: nat)
    requires IsStripped(args, n) && IsStripped(args, m)
    ensures n == m
  {
  }

  /**
   * Appending colour flags leaves the mode unchanged and turns colour off
   * if there was at least one.
   */
  lemma {:induction false} TrailingFlagsIgnored(args: seq<string>, flags: seq<string>, colorMode: bool)
    requires HasOperand(args)
    requires forall j | 0 <= j < |flags| :: IsColorFlag(flags[j])
    ensures HasOperand(args + flags)
    ensures ArgsHandler(args + flags, colorMode)
         == Classified(ArgsHandler(args, colorMode).mode, ArgsHandler(args, colorMode).colorMode && |flags| == 0)
    decreases |flags|
  {
    var i :| 0 <= i < |args| && !IsColorFlag(args[i]);
    assert (args + flags)[i] == args[i];
    if |flags| > 0 {
      var all := args + flags;
      var shorter := flags[..|flags| - 1];
      assert all[..|all| - 1] == args + shorter;
      TrailingFlagsIgnored(args, shorter, false);
      StrippedExists(args);
      var n: nat :| IsStripped(args, n);
      assert IsStripped(args + shorter, n) by {
        forall j | n <= j < |args + shorter| ensures IsColorFlag((args + shorter)[j]) {
          if j >= |args| { assert (args + shorter)[j] == shorter[j - |args|]; }
        }
      }
      assert IsStripped(all, n) by {
        forall j | n <= j < |all| ensures IsColorFlag(all[j]) {
          if j >= |args| { assert all[j] == flags[j - |args|]; }
        }
      }
    } else {
      assert args + flags == args;
    }
  }

  const Esc: char := '\U{1B}'

  /** The ANSI "select graphic rendition" escape `ESC [ code m`. */
  function Sgr(code: string): string {
    [Esc] + "[" + code + "m"
  }

  /** The ANSI sequence that resets all attributes. */
  const Reset: string := Sgr("0")

  /** The ANSI escape selecting each colour (foreground, then background). */
  function ColorCode(color: CliColor): (code: string)
    ensures |code| >= 4 && code[0] == Esc && code[1] == '[' && code[|code| - 1] == 'm'
  {
    match color
    case Default => Reset
    case Blue => Sgr("94") + Sgr("103")
    case Yellow => Sgr("93") + Sgr("104")
    case Green => Sgr("92") + Sgr("105")
    case Red => Sgr("91") + Sgr("106")
  }

  /**
   * Default selects the reset sequence, and the colours select pairwise
   * different escapes.
   */
  lemma ColorCodesDistinct(c: CliColor, d: CliColor)
    ensures ColorCode(Default) == Reset
    ensures c != d ==> ColorCode(c) != ColorCode(d)
  {
    ColorCodeKey(c);
    ColorCodeKey(d);
  }

  /** The character after `ESC [ 9`, or the `m` of the reset, tells the colours apart. */
  lemma ColorCodeKey(c: CliColor)
    ensures ColorCode(c)[3] == match c
      case Default => 'm' case Blue => '4' case Yellow => '3' case Green => '2' case Red => '1'
  {
    match c
    case Default =>
    case Blue => assert ColorCode(c)[3] == Sgr("94")[3];
    case Yellow => assert ColorCode(c)[3] == Sgr("93")[3];
    case Green => assert ColorCode(c)[3] == Sgr("92")[3];
    case Red => assert ColorCode(c)[3] == Sgr("91")[3];
  }

  /**
   * `print`: what reaches the terminal. The colour's escape only when colour
   * mode is on, then the text, then a reset and a newline.
   */
  function Print(text: string, color: CliColor, colorMode: bool): (out: string)
    ensures |out| == (if colorMode then |ColorCode(color)| else 0) + |text| + |Reset| + 1
    ensures colorMode ==> out[..|ColorCode(color)|] == ColorCode(color)
    ensures var p := if colorMode then |ColorCode(color)| else 0;
            out[p..p + |text|] == text
    ensures out[|out| - |Reset| - 1..] == Reset + "\n"
  {
    var prefix, tail := if colorMode then ColorCode(color) else "", Reset + "\n";
    ThreeParts(prefix, text, tail);
    prefix + text + tail
  }

  /** Where each part of `a + b + c` sits. */
  lemma ThreeParts<T>(a: seq<T>, b: seq<T>, c: seq<T>)
    ensures (a + b + c)[..|a|] == a
    ensures (a + b + c)[|a|..|a| + |b|] == b
    ensures (a + b + c)[|a| + |b|..] == c
  {
  }

  /** What a terminal displays of `s`: every escape from `ESC` through the next `m` removed. */
  function VisibleText(s: string): string
    decreases |s|
  {
    if s == [] then []
    else if s[0] == Esc then VisibleText(AfterEscape(s[1..]))
    else [s[0]] + VisibleText(s[1..])
  }

  /** The text after the `m` that ends an escape. */
  function AfterEscape(s: string): (r: string)
    ensures |r| <= |s|
  {
    if s == [] then [] else if s[0] == 'm' then s[1..] else AfterEscape(s[1..])
  }

  lemma {:induction false} AfterEscapeSkips(body: string, rest: string)
    requires 'm' !in body
    ensures AfterEscape(body + "m" + rest) == rest
  {
    if body == [] {
      assert body + "m" + rest == "m" + rest;
    } else {
      assert (body + "m" + rest)[1..] == body[1..] + "m" + rest;
      AfterEscapeSkips(body[1..], rest);
    }
  }

  /** An escape `ESC [ code m` displays nothing. */
  lemma EscapeInvisible(code: string, rest: string)
    requires 'm' !in code
    ensures VisibleText(Sgr(code) + rest) == VisibleText(rest)
  {
    var s := Sgr(code) + rest;
    assert s[0] == Esc;
    assert s[1..] == "[" + code + "m" + rest;
    AfterEscapeSkips("[" + code, rest);
  }

  /** Two escapes in a row display nothing. */
  lemma TwoEscapesInvisible(first: string, second: string, rest: string)
    requires 'm' !in first && 'm' !in second
    ensures VisibleText(Sgr(first) + Sgr(second) + rest) == VisibleText(rest)
  {
    assert Sgr(first) + Sgr(second) + rest == Sgr(first) + (Sgr(second) + rest);
    EscapeInvisible(first, Sgr(second) + rest);
    EscapeInvisible(second, rest);
  }

  /** Text without escapes is displayed as it is. */
  lemma {:induction false} PlainVisible(text: string, rest: string)
    requires Esc !in text
    ensures VisibleText(text + rest) == text + VisibleText(rest)
  {
    if text != [] {
      assert (text + rest)[0] == text[0];
      assert (text + rest)[1..] == text[1..] + rest;
      PlainVisible(text[1..], rest);
      assert [text[0]] + text[1..] == text;
    } else {
      assert text + rest == rest;
    }
  }

  /** No colour escape displays anything. */
  lemma ColorCodeInvisible(color: CliColor, rest: string)
    ensures VisibleText(ColorCode(color) + rest) == VisibleText(rest)
  {
    match color
    case Default => EscapeInvisible("0", rest);
    case Blue => TwoEscapesInvisible("94", "103", rest);
    case Yellow => TwoEscapesInvisible("93", "104", rest);
    case Green => TwoEscapesInvisible("92", "105", rest);
    case Red => TwoEscapesInvisible("91", "106", rest);
  }

  /** The reset and newline ending every line display as a newline. */
  lemma ResetLineVisible()
    ensures VisibleText(Reset + "\n") == "\n"
  {
    EscapeInvisible("0", "\n");
    PlainVisible("\n", []);
    assert "\n" + [] == "\n";
  }

  /** The printed line as its three parts. */
  lemma PrintParts(text: string, color: CliColor, colorMode: bool)
    ensures colorMode ==> Print(text, color, colorMode) == ColorCode(color) + (text + (Reset + "\n"))
    ensures !colorMode ==> Print(text, color, colorMode) == text + (Reset + "\n")
  {
    var prefix := if colorMode then ColorCode(color) else "";
    assert prefix + text + Reset + "\n" == prefix + (text + (Reset + "\n"));
    if !colorMode {
      assert prefix + (text + (Reset + "\n")) == text + (Reset + "\n");
    }
  }

  /**
   * Whatever the colour and the colour mode, the terminal displays exactly
   * the text and a newline.
   */
  lemma PrintShowsText(text: string, color: CliColor, colorMode: bool)
    requires Esc !in text
    ensures VisibleText(Print(text, color, colorMode)) == text + "\n"
  {
    var tail := Reset + "\n";
    ResetLineVisible();
    PlainVisible(text, tail);
    PrintParts(text, color, colorMode);
    if colorMode {
      ColorCodeInvisible(color, text + tail);
    }
  }
}
