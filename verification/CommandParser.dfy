/** Splitting a command line (daemon/interface/utils/command_parser.cc). */
module CommandParser {
  import opened Options

  // ----- the std::string operations used -----

  /** s.find(c, from) */
  function Find(s: string, c: char, from: nat): (r: Option<nat>)
    requires from <= |s|
    ensures r.Some? ==> from <= r.value < |s| && s[r.value] == c && c !in s[from..r.value]
    ensures r.None? ==> c !in s[from..]
    decreases |s| - from
  {
    if from == |s| then None
    else if s[from] == c then Some(from)
    else
      var r := Find(s, c, from + 1);
      assert s[from..] == [s[from]] + s[from + 1..];
      assert r.Some? ==> s[from..r.value] == [s[from]] + s[from + 1..r.value];
      r
  }

  /** s.erase(0, s.find_first_not_of(c)) */
  function TrimFront(s: string, c: char): (r: string)
    ensures r == s <==> s == "" || s[0] != c
    ensures |r| <= |s|
    ensures r == "" || r[0] != c
  {
    if s == "" then s
    else if s[0] != c then s
    else TrimFront(s[1..], c)
  }

  /** s.erase(s.find_last_not_of(c) + 1) */
  function TrimBack(s: string, c: char): (r: string)
    ensures r == s <==> s == "" || s[|s| - 1] != c
    ensures |r| <= |s|
    ensures r == "" || r[|r| - 1] != c
  {
    if s == "" then s
    else if s[|s| - 1] != c then s
    else TrimBack(s[..|s| - 1], c)
  }

  /** Spaces off both ends, then newlines off the back. */
  function Trimmed(input: string): string {
    TrimBack(TrimBack(TrimFront(input, ' '), ' '), '\n')
  }

  // ----- what trimming does -----

  function Times<T>(c: T, k: nat): (r: seq<T>)
    ensures |r| == k && forall i :: 0 <= i < k ==> r[i] == c
  {
    seq(k, _ => c)
  }

  lemma TimesMore<T>(c: T, k: nat)
    requires k > 0
    ensures Times(c, k) == [c] + Times(c, k - 1) && Times(c, k) == Times(c, k - 1) + [c]
  {
  }

  /** TrimFront takes off every leading c, and nothing else. */
  lemma {:induction false} TrimFrontExact(c: char, k: nat, t: string)
    requires t == "" || t[0] != c
    ensures TrimFront(Times(c, k) + t, c) == t
    decreases k
  {
    if k == 0 {
      assert Times(c, 0) + t == t;
    } else {
      TimesMore(c, k);
      TrimFrontExact(c, k - 1, t);
      assert (Times(c, k) + t)[1..] == Times(c, k - 1) + t;
    }
  }

  lemma {:induction false} TrimBackExact(t: string, c: char, k: nat)
    requires t == "" || t[|t| - 1] != c
    ensures TrimBack(t + Times(c, k), c) == t
    decreases k
  {
    if k == 0 {
      assert t + Times(c, 0) == t;
    } else {
      TimesMore(c, k);
      TrimBackExact(t, c, k - 1);
      var s := t + Times(c, k);
      assert s[..|s| - 1] == t + Times(c, k - 1);
    }
  }

  lemma {:induction false} TrimFrontSplits(s: string, c: char) returns (k: nat)
    ensures s == Times(c, k) + TrimFront(s, c)
    decreases |s|
  {
    k := 0;
    if s != "" && s[0] == c {
      k := TrimFrontSplits(s[1..], c);
      k := k + 1;
      TimesMore(c, k);
      assert s == [c] + s[1..];
    }
  }

  lemma {:induction false} TrimBackSplits(s: string, c: char) returns (k: nat)
    ensures s == TrimBack(s, c) + Times(c, k)
    decreases |s|
  {
    k := 0;
    if s != "" && s[|s| - 1] == c {
      k := TrimBackSplits(s[..|s| - 1], c);
      k := k + 1;
      TimesMore(c, k);
      assert s == s[..|s| - 1] + [c];
    }
  }

  /** a spaces before t, and b newlines and then c spaces behind it. */
  function Padded(a: nat, t: string, b: nat, c: nat): string {
    Times(' ', a) + (t + Times('\n', b) + Times(' ', c))
  }

  ghost predicate PaddedBy(input: string, t: string, a: nat, b: nat, c: nat) {
    && input == Padded(a, t, b, c)
    && (t != "" ==> t[0] != ' ' && t[|t| - 1] != '\n' && (b == 0 ==> t[|t| - 1] != ' '))
  }

  ghost predicate IsPadded(input: string, t: string) {
    exists a: nat, b: nat, c: nat :: PaddedBy(input, t, a, b, c)
  }

  /** Trimming a padded text leaves the text. */
  lemma TrimPadded(input: string, t: string, a: nat, b: nat, c: nat)
    requires PaddedBy(input, t, a, b, c)
    ensures Trimmed(input) == t
  {
    hide TrimFront, TrimBack;
    var body := t + Times('\n', b);
    if body == "" {
      assert body + Times(' ', c) == Times(' ', c);
      TrimFrontExact(' ', a + c, "");
      assert input == Times(' ', a + c) + "";
      TrimBackExact("", ' ', 0);
      TrimBackExact("", '\n', 0);
      assert "" + Times(' ', 0) == "" && "" + Times('\n', 0) == "";
    } else {
      TrimFrontExact(' ', a, body + Times(' ', c));
      TrimBackExact(body, ' ', c);
      TrimBackExact(t, '\n', b);
    }
  }

  /** What is left after trimming is t exactly when the input is t with spaces before it and
      newlines, then spaces, behind it, as many of each as there are. */
  lemma TrimmedIff(input: string, t: string)
    ensures Trimmed(input) == t <==> IsPadded(input, t)
  {
    if IsPadded(input, t) {
      var a: nat, b: nat, c: nat :| PaddedBy(input, t, a, b, c);
      TrimPadded(input, t, a, b, c);
    }
    if Trimmed(input) == t {
      hide TrimFront, TrimBack;
      var front := TrimFront(input, ' ');
      var body := TrimBack(front, ' ');
      var a := TrimFrontSplits(input, ' ');
      var c := TrimBackSplits(front, ' ');
      var b := TrimBackSplits(body, '\n');
      assert PaddedBy(input, t, a, b, c);
    }
  }

  // ----- tokens -----

  predicate SpaceFree(tokens: seq<string>) {
    forall i :: 0 <= i < |tokens| ==> ' ' !in tokens[i]
  }

  /** The pieces between single spaces; they may be empty. */
  function Split(s: string): (tokens: seq<string>)
    ensures |tokens| > 0
    decreases |s|
  {
    match Find(s, ' ', 0)
    case None => [s]
    case Some(k) => [s[..k]] + Split(s[k + 1..])
  }

  function Join(tokens: seq<string>): string
    requires |tokens| > 0
  {
    if |tokens| == 1 then tokens[0] else tokens[0] + " " + Join(tokens[1..])
  }

  lemma {:induction false} JoinSplit(s: string)
    ensures Join(Split(s)) == s && SpaceFree(Split(s))
    decreases |s|
  {
    var r := Find(s, ' ', 0);
    assert s[0..] == s;
    if r.Some? {
      var k := r.value;
      JoinSplit(s[k + 1..]);
      assert Split(s)[1..] == Split(s[k + 1..]);
      assert s[0..k] == s[..k];
      assert s == s[..k] + " " + s[k + 1..];
    }
  }

  /** Space-free tokens are what their join splits into. */
  lemma {:induction false} SplitJoin(tokens: seq<string>)
    requires |tokens| > 0 && SpaceFree(tokens)
    ensures Split(Join(tokens)) == tokens
    decreases |tokens|
  {
    var s := Join(tokens);
    var n := |tokens[0]|;
    assert s[0..] == s;
    if |tokens| > 1 {
      SplitJoin(tokens[1..]);
      assert s[n] == ' ' && s[..n] == tokens[0] && s[n + 1..] == Join(tokens[1..]);
      assert forall i :: 0 <= i < n ==> s[i] == tokens[0][i];
      FirstSpace(s, 0, n);
    }
  }

  lemma {:induction false} FirstSpace(s: string, from: nat, n: nat)
    requires from <= n < |s| && s[n] == ' ' && forall i :: from <= i < n ==> s[i] != ' '
    ensures Find(s, ' ', from) == Some(n)
    decreases n - from
  {
    if from < n {
      FirstSpace(s, from + 1, n);
    }
  }

  // ----- parsing -----

  datatype Outcome =
    | Ok(command: string, arguments: seq<string>)
    | EmptyCommand
    | UnpairedQuote  // INVALID_ARGUMENT with an error text
    | LengthError    // std::length_error while building that text
    | Diverges       // no return at all

  predicate Quoted(token: string) {
    token != "" && token[0] == '"'
  }

  /** The first argument from j on, the last one excepted, that opens with a quote. */
  function FirstQuoted(tokens: seq<string>, j: nat): (r: Option<nat>)
    ensures r.Some? ==> j <= r.value < |tokens| - 1 && Quoted(tokens[r.value])
    ensures r.Some? ==> forall k :: j <= k < r.value ==> !Quoted(tokens[k])
    ensures r.None? ==> forall k :: j <= k < |tokens| - 1 ==> !Quoted(tokens[k])
    decreases |tokens| - j
  {
    if j + 1 >= |tokens| then None
    else if Quoted(tokens[j]) then Some(j)
    else FirstQuoted(tokens, j + 1)
  }

  // ----- the error text of an unpaired quote -----

  const WORD: nat := 0x1_0000_0000_0000_0000

  /** A bound on std::string lengths that every implementation with a 64-bit size_t keeps. */
  const MAX_SIZE: nat := 0x7fff_ffff_ffff_ffff

  /** final_error_loc of generate_nice_error_msg, a size_t: the position in the shortened
      command, which underflows or stays 0 when the position is not near the front. */
  function FinalErrorLoc(errorLoc: nat, length: nat): nat
    requires errorLoc <= length
  {
    if length < 80 || errorLoc < 77 then errorLoc
    else if length - errorLoc < 77 then (errorLoc - length - 77) % WORD
    else 0
  }

  /** std::string(final_error_loc - 1, ' ') exceeds the maximal length. */
  predicate ErrorTextThrows(errorLoc: nat, length: nat)
    requires errorLoc <= length
  {
    (FinalErrorLoc(errorLoc, length) - 1) % WORD > MAX_SIZE
  }

  /** The error text cannot be built exactly when a command of 80 or more characters has its
      error at position 77 or later. */
  lemma ErrorTextThrowsIff(errorLoc: nat, length: nat)
    requires 0 < errorLoc <= length <= MAX_SIZE
    ensures ErrorTextThrows(errorLoc, length) <==> length >= 80 && errorLoc >= 77
  {
  }

  function QuoteError(errorLoc: nat, length: nat): Outcome
    requires errorLoc <= length
  {
    if ErrorTextThrows(errorLoc, length) then LengthError else UnpairedQuote
  }

  // ----- the specification -----

  /** At quoted argument j: another quote behind it makes the loop run forever, otherwise the
      error is reported at the end of the argument. */
  function QuotedOutcome(tokens: seq<string>, j: nat): Outcome
    requires j + 1 < |tokens|
  {
    var rest := Join(tokens[j + 1..]);
    if '"' in rest then Diverges else QuoteError(|tokens[j]|, |tokens[j]| + 1 + |rest|)
  }

  /** What parse_command makes of its input: the space-separated tokens of the trimmed text,
      unless an argument other than the last opens with a quote. */
  function Parse(input: string): Outcome {
    var text := Trimmed(input);
    if text == "" then EmptyCommand
    else
      var tokens := Split(text);
      match FirstQuoted(tokens, 1)
      case None => Ok(tokens[0], tokens[1..])
      case Some(j) => QuotedOutcome(tokens, j)
  }

  // ----- the argument loop, pass by pass -----

  /** How a pass leaves the loop, or the remaining input and the result it goes on with. */
  datatype Pass = Exit(result: seq<string>) | Error(outcome: Outcome) | Continue(input: string, result: seq<string>)

  /** One pass, and what follows the loop when the condition fails. */
  function LoopPass(input: string, result: seq<string>): Pass {
    match Find(input, ' ', 0)
    case None => Exit(result + [input])
    case Some(current) =>
      if input[0] == '"' then
        match Find(input, '"', current + 1)
        case None => Error(QuoteError(current, |input|))
        case Some(close) =>
          // substr(current, close): from the space, at most close characters
          var end := if current + close <= |input| then current + close else |input|;
          Continue(input, result + [input[current..end]])
      else Continue(input[current + 1..], result + [input[..current]])
  }

  /** n passes of the loop, as long as it goes on. */
  function Passes(input: string, result: seq<string>, n: nat): Pass
    decreases n
  {
    if n == 0 then Continue(input, result)
    else
      match LoopPass(input, result)
      case Continue(input', result') => Passes(input', result', n - 1)
      case p => p
  }

  ghost predicate GoesOn(input: string, result: seq<string>, n: nat) {
    Passes(input, result, n).Continue?
  }

  ghost predicate NeverEnds(rest: string) {
    forall n: nat :: GoesOn(rest, [], n)
  }

  /** The quoting branch does not consume its input: once it finds a closing quote, the loop
      never ends; every pass appends the same piece to the result and leaves the input. */
  lemma {:induction false} QuotingNeverEnds(input: string, result: seq<string>, n: nat)
    requires input != "" && input[0] == '"' && Find(input, ' ', 0).Some?
    requires Find(input, '"', Find(input, ' ', 0).value + 1).Some?
    ensures GoesOn(input, result, n)
    ensures var current := Find(input, ' ', 0).value;
            var close := Find(input, '"', current + 1).value;
            var end := if current + close <= |input| then current + close else |input|;
            Passes(input, result, n) == Continue(input, result + Times(input[current..end], n))
    decreases n
  {
    if n > 0 {
      var piece := LoopPass(input, []).result[0];
      QuotingNeverEnds(input, result + [piece], n - 1);
      TimesMore(piece, n);
      assert result + Times(piece, n) == (result + [piece]) + Times(piece, n - 1);
    } else {
      assert forall piece: string :: result + Times(piece, 0) == result;
    }
  }

  /** Before the pass that takes argument j: the arguments so far are the tokens before it,
      none of them quoted, and the input left is the rest. */
  ghost predicate AtArgument(tokens: seq<string>, j: nat, input: string, result: seq<string>) {
    && 1 <= j < |tokens|
    && Split(input) == tokens[j..]
    && result == tokens[1..j]
    && FirstQuoted(tokens, j) == FirstQuoted(tokens, 1)
  }

  lemma FirstArgument(text: string, k: nat)
    requires Find(text, ' ', 0) == Some(k)
    ensures AtArgument(Split(text), 1, text[k + 1..], [])
    ensures Split(text)[0] == text[..k]
  {
    hide Find, Quoted;
    assert Split(text)[1..] == Split(text[k + 1..]);
  }

  lemma NextArgument(tokens: seq<string>, j: nat, input: string, result: seq<string>, k: nat)
    requires AtArgument(tokens, j, input, result) && Find(input, ' ', 0) == Some(k)
    ensures j + 1 < |tokens| && tokens[j] == input[..k]
    ensures Quoted(tokens[j]) <==> input[0] == '"'
    ensures Split(input[k + 1..]) == tokens[j + 1..]
    ensures input[0] != '"' ==> AtArgument(tokens, j + 1, input[k + 1..], result + [input[..k]])
    ensures input[0] == '"' ==> FirstQuoted(tokens, 1) == Some(j)
  {
    hide Find;
    assert Split(input)[1..] == Split(input[k + 1..]);
    assert tokens[j..][1..] == tokens[j + 1..];
    assert tokens[j] == tokens[j..][0];
  }

  lemma LastArgument(tokens: seq<string>, j: nat, input: string, result: seq<string>)
    requires AtArgument(tokens, j, input, result) && Find(input, ' ', 0).None?
    ensures result + [input] == tokens[1..] && FirstQuoted(tokens, 1).None?
  {
    assert tokens[j..] == [input];
    assert tokens[1..] == tokens[1..j] + tokens[j..];
  }

  lemma FindIffIn(s: string, c: char, from: nat)
    requires from <= |s|
    ensures Find(s, c, from).Some? <==> c in s[from..]
  {
    var r := Find(s, c, from);
    if r.Some? {
      assert s[from..][r.value - from] == c;
    }
  }

  lemma NoSpaceOneToken(s: string)
    requires Find(s, ' ', 0).None?
    ensures Split(s) == [s]
  {
  }

  /** parse_command. Where the loop would run forever the method stops and says so. */
  method ParseCommand(inputCommand: string) returns (r: Outcome)
    ensures r == Parse(inputCommand)
  {
    hide Join, Trimmed, Quoted, Split, Find, AtArgument, FirstQuoted;
    var input := Trimmed(inputCommand);
    if |input| <= 0 {
      return EmptyCommand;
    }
    ghost var tokens := Split(input);
    var current := Find(input, ' ', 0);
    if current.None? {
      NoSpaceOneToken(input);
      OnlyCommand(input);
      return Ok(input, []);
    }
    FirstArgument(input, current.value);
    var command := input[..current.value];
    input := input[current.value + 1..];
    var result: seq<string> := [];
    ghost var j := 1;
    current := Find(input, ' ', 0);
    while current.Some?
      invariant current == Find(input, ' ', 0)
      invariant AtArgument(tokens, j, input, result)
      decreases |input|
    {
      NextArgument(tokens, j, input, result, current.value);
      if input[0] == '"' {
        var close := Find(input, '"', current.value + 1);
        FindIffIn(input, '"', current.value + 1);
        JoinSplit(input[current.value + 1..]);
        if close.None? {
          return QuoteError(current.value, |input|);
        } else {
          return Diverges;
        }
      } else {
        result := result + [input[..current.value]];
        input := input[current.value + 1..];
        j := j + 1;
      }
      current := Find(input, ' ', 0);
    }
    LastArgument(tokens, j, input, result);
    result := result + [input];
    return Ok(command, result);
  }

  lemma OnlyCommand(s: string)
    ensures FirstQuoted([s], 1).None?
  {
  }

  /** What n passes from argument j on have come to: an end is the right one, and after more
      passes than there are arguments the loop still runs only if it is to run forever. */
  ghost predicate PassesRight(tokens: seq<string>, j: nat, p: Pass, n: nat)
    requires j < |tokens|
  {
    var quoted := FirstQuoted(tokens, 1);
    && (p.Exit? ==> quoted.None? && p.result == tokens[1..])
    && (p.Error? ==> quoted.Some? && p.outcome == QuotedOutcome(tokens, quoted.value) && !p.outcome.Diverges?)
    && (p.Continue? && n >= |tokens| - j ==> quoted.Some? && QuotedOutcome(tokens, quoted.value) == Diverges)
    && (quoted.Some? && QuotedOutcome(tokens, quoted.value) == Diverges ==> p.Continue?)
  }

  lemma {:induction false} PassesFollow(tokens: seq<string>, j: nat, input: string, result: seq<string>, n: nat)
    requires AtArgument(tokens, j, input, result)
    ensures j < |tokens| && PassesRight(tokens, j, Passes(input, result, n), n)
    decreases n
  {
    hide Join, Quoted, Split, Find, AtArgument, FirstQuoted, ErrorTextThrows;
    ArgumentInRange(tokens, j, input, result);
    if n > 0 {
      var current := Find(input, ' ', 0);
      if current.None? {
        LastArgument(tokens, j, input, result);
      } else {
        NextArgument(tokens, j, input, result, current.value);
        if input[0] == '"' {
          FindIffIn(input, '"', current.value + 1);
          JoinSplit(input[current.value + 1..]);
          if Find(input, '"', current.value + 1).Some? {
            QuotingNeverEnds(input, result, n);
          }
        } else {
          PassesFollow(tokens, j + 1, input[current.value + 1..], result + [input[..current.value]], n - 1);
        }
      }
    }
  }

  lemma ArgumentInRange(tokens: seq<string>, j: nat, input: string, result: seq<string>)
    requires AtArgument(tokens, j, input, result)
    ensures 1 <= j < |tokens|
  {
  }

  /** The argument loop of the source runs forever exactly when Parse says Diverges, and
      whenever it ends, it ends with the outcome of Parse. */
  lemma LoopDecides(inputCommand: string, k: nat)
    requires Find(Trimmed(inputCommand), ' ', 0) == Some(k)
    ensures NeverEnds(Trimmed(inputCommand)[k + 1..]) <==> Parse(inputCommand) == Diverges
    ensures forall n: nat :: EndsAs(inputCommand, k, n)
  {
    hide Join, Trimmed, Quoted, Split, Find, AtArgument, FirstQuoted, QuotedOutcome;
    var text := Trimmed(inputCommand);
    var rest, tokens := text[k + 1..], Split(text);
    FirstArgument(text, k);
    ArgumentInRange(tokens, 1, rest, []);
    forall n: nat
      ensures PassesRight(tokens, 1, Passes(rest, [], n), n)
    {
      PassesFollow(tokens, 1, rest, [], n);
    }
    if NeverEnds(rest) {
      assert GoesOn(rest, [], |tokens|);
    }
  }

  /** If the loop has ended after n passes, parse_command returns the outcome of Parse. */
  ghost predicate EndsAs(inputCommand: string, k: nat, n: nat)
    requires k < |Trimmed(inputCommand)|
  {
    var text := Trimmed(inputCommand);
    match Passes(text[k + 1..], [], n)
    case Exit(result) => Parse(inputCommand) == Ok(text[..k], result)
    case Error(outcome) => Parse(inputCommand) == outcome
    case Continue(_, _) => true
  }

  /** The loop is entered and no number of passes ends it. */
  ghost predicate LoopsForever(text: string) {
    match Find(text, ' ', 0)
    case None => false
    case Some(k) => NeverEnds(text[k + 1..])
  }

  /** parse_command fails to return exactly on the inputs that Parse says Diverges for. */
  lemma DivergesIff(inputCommand: string)
    ensures LoopsForever(Trimmed(inputCommand)) <==> Parse(inputCommand) == Diverges
  {
    hide Trimmed, Find, Passes;
    match Find(Trimmed(inputCommand), ' ', 0)
    case None =>
      NoSpaceOneToken(Trimmed(inputCommand));
      OnlyCommand(Trimmed(inputCommand));
    case Some(k) =>
      LoopDecides(inputCommand, k);
  }

  // ----- the laws -----

  /** A successful parse loses nothing: joined with single spaces, command and arguments are
      the trimmed input again, and none of them contains a space. */
  lemma ParseKeepsText(input: string)
    requires Parse(input).Ok?
    ensures var Ok(command, arguments) := Parse(input);
            Join([command] + arguments) == Trimmed(input) && SpaceFree([command] + arguments)
  {
    var tokens := Split(Trimmed(input));
    JoinSplit(Trimmed(input));
    assert [tokens[0]] + tokens[1..] == tokens;
  }

  /** Argument j, which is not the last, opens with a quote, and none before it does. */
  ghost predicate OpensFirst(tokens: seq<string>, j: nat) {
    1 <= j < |tokens| - 1 && Quoted(tokens[j]) && forall k :: 1 <= k < j ==> !Quoted(tokens[k])
  }

  lemma {:induction false} JoinTail(tokens: seq<string>, j: nat)
    requires j < |tokens|
    ensures |Join(tokens[j..])| <= |Join(tokens)|
    decreases j
  {
    if j == 0 {
      assert tokens[0..] == tokens;
    } else {
      JoinTail(tokens[1..], j - 1);
      assert tokens[1..][j - 1..] == tokens[j..];
    }
  }

  /** Which outcome an input has, for all of them. */
  lemma ParseOutcomes(input: string)
    requires |input| < 0x8000_0000_0000_0000
    ensures var text := Trimmed(input);
            var tokens := Split(text);
            && (Parse(input) == EmptyCommand <==> text == "")
            && (Parse(input).Ok? <==> text != "" && forall j: nat :: !OpensFirst(tokens, j))
            && (Parse(input).Ok? ==> Parse(input) == Ok(tokens[0], tokens[1..]))
            && forall j: nat :: OpensFirst(tokens, j) ==>
                 var rest := Join(tokens[j + 1..]);
                 Parse(input) == if '"' in rest then Diverges
                                 else if |tokens[j]| + 1 + |rest| >= 80 && |tokens[j]| >= 77 then LengthError
                                 else UnpairedQuote
  {
    hide Trimmed, Split, Join, ErrorTextThrows, Quoted;
    var text := Trimmed(input);
    var tokens := Split(text);
    TrimmedShorter(input);
    JoinSplit(text);
    match FirstQuoted(tokens, 1)
    case None =>
    case Some(j) =>
      assert OpensFirst(tokens, j);
      JoinTail(tokens, j);
      JoinHead(tokens, j);
      QuotedNonempty(tokens[j]);
      SplitEmpty(text);
      ErrorTextThrowsIff(|tokens[j]|, |tokens[j]| + 1 + |Join(tokens[j + 1..])|);
  }

  lemma SplitEmpty(text: string)
    ensures text == "" ==> Split(text) == [""]
  {
  }

  lemma QuotedNonempty(token: string)
    requires Quoted(token)
    ensures |token| > 0
  {
  }

  lemma JoinHead(tokens: seq<string>, j: nat)
    requires j + 1 < |tokens|
    ensures Join(tokens[j..]) == tokens[j] + " " + Join(tokens[j + 1..])
  {
    assert tokens[j..][1..] == tokens[j + 1..];
  }

  lemma TrimmedShorter(input: string)
    ensures |Trimmed(input)| <= |input|
  {
  }

  /** What a caller may put on a command line that newlines follow. */
  predicate Printable(tokens: seq<string>, newlines: nat)
    requires |tokens| > 0
  {
    var last := tokens[|tokens| - 1];
    && tokens[0] != ""
    && (if last == "" then newlines > 0 else last[|last| - 1] != '\n')
    && forall j :: 1 <= j < |tokens| - 1 ==> !Quoted(tokens[j])
  }

  /** A text parses to its tokens exactly when none in the middle is quoted. */
  lemma TrimmedParse(input: string, tokens: seq<string>)
    requires Trimmed(input) != "" && Split(Trimmed(input)) == tokens
    ensures Parse(input) == Ok(tokens[0], tokens[1..])
       <==> forall j :: 1 <= j < |tokens| - 1 ==> !Quoted(tokens[j])
  {
    hide Trimmed, Split, Quoted, Join, ErrorTextThrows;
  }

  /** However many spaces stand before a line of tokens, and newlines and then spaces behind
      it, parsing it returns the tokens exactly when they are printable. */
  lemma ParseInvertsJoin(tokens: seq<string>, a: nat, b: nat, c: nat)
    requires |tokens| > 0 && SpaceFree(tokens)
    ensures Parse(Padded(a, Join(tokens), b, c)) == Ok(tokens[0], tokens[1..]) <==> Printable(tokens, b)
  {
    hide Join, Split, Trimmed, Parse, Quoted, SpaceFree, Padded;
    var text := Join(tokens);
    var input := Padded(a, text, b, c);
    SplitJoin(tokens);
    JoinEnds(tokens);
    TrimPaddedIff(text, a, b, c);
    if Parse(input) == Ok(tokens[0], tokens[1..]) {
      ParseKeepsText(input);
      assert [tokens[0]] + tokens[1..] == tokens;
      ParsedNonempty(input);
      TrimmedParse(input, tokens);
    } else if text != "" && Trimmed(input) == text {
      TrimmedParse(input, tokens);
    }
  }

  lemma ParsedNonempty(input: string)
    requires Parse(input).Ok?
    ensures Trimmed(input) != ""
  {
  }

  /** Trimming takes exactly the padding off when the ends of the text are clean: a text
      that ends in a space is protected by a newline behind it. */
  lemma TrimPaddedIff(text: string, a: nat, b: nat, c: nat)
    ensures Trimmed(Padded(a, text, b, c)) == text
       <==> text == "" || (text[0] != ' ' && text[|text| - 1] != '\n' && (b == 0 ==> text[|text| - 1] != ' '))
  {
    var input := Padded(a, text, b, c);
    TrimmedIff(input, text);
    if text == "" || (text[0] != ' ' && text[|text| - 1] != '\n' && (b == 0 ==> text[|text| - 1] != ' ')) {
      assert PaddedBy(input, text, a, b, c);
    } else if text[0] != ' ' && text[|text| - 1] != '\n' {
      hide TrimFront, TrimBack;
      var m := TrimBackSplits(text, ' ');
      var u := TrimBack(text, ' ');
      assert text + Times('\n', 0) + Times(' ', c) == u + Times(' ', m + c);
      TrimBackExact(u, ' ', m + c);
      TrimFrontExact(' ', a, text + Times('\n', 0) + Times(' ', c));
    }
  }

  /** The ends of a joined line come from the first and the last token, unless these are empty. */
  lemma {:induction false} JoinEnds(tokens: seq<string>)
    requires |tokens| > 0 && SpaceFree(tokens)
    ensures var text, last := Join(tokens), tokens[|tokens| - 1];
            && (text == "" <==> |tokens| == 1 && tokens[0] == "")
            && (text != "" ==> (text[0] == ' ' <==> tokens[0] == ""))
            && (text != "" ==> (text[|text| - 1] == ' ' <==> last == ""))
            && (last != "" ==> text != "" && text[|text| - 1] == last[|last| - 1])
    decreases |tokens|
  {
    if |tokens| == 1 {
      if tokens[0] != "" {
        assert tokens[0][0] in tokens[0];
        assert tokens[0][|tokens[0]| - 1] in tokens[0];
      }
    } else {
      JoinEnds(tokens[1..]);
      if tokens[0] != "" {
        assert tokens[0][0] in tokens[0];
      }
    }
  }
}
