/**
 * The validated-input readers of the console front end. The console is a
 * sequence of typed lines and a cursor `pos`; every reader returns where the
 * next read starts. Where the readers would block forever on a closed input
 * (each further read yields an empty, invalid line), the model ends with
 * `Exhausted`.
 */
module Read {
  import opened Wrappers
  import opened Seqs
  import opened Text
  import opened Types

  /** The prompt texts the readers display; their wording is localisation data. */
  datatype Prompts = Prompts(
    invalidLiteral: string,
    shouldBeOneOfBelowLiteral: string,
    emailAddrInvalid: string,
    sendConfirmLiteral: string,
    fetchMailboxLiteral: string,
    fetchMessageLiteral: string,
    horizontalStart: string,
    horizontalEnd: string)

  /** What a retrying reader ends with: a value and the cursor after the line that gave it, or the end of input. */
  datatype Scan<T> = Got(value: T, next: nat) | Exhausted

  /**
   * `read_input`: the typed line without its surrounding whitespace. Past the
   * end of the input `read_line` yields an empty line.
   */
  function ReadInput(input: seq<string>, pos: nat): string {
    if pos < |input| then Trim(input[pos]) else ""
  }

  /**
   * The re-prompt protocol: the first line at or after `pos` that `parse`
   * accepts, with every line before it rejected.
   */
  function FirstValid<T>(input: seq<string>, pos: nat, parse: string -> Option<T>): (r: Scan<T>)
    ensures r.Got? ==> pos < r.next <= |input|
    decreases |input| - pos
  {
    if pos >= |input| then Exhausted
    else
      match parse(input[pos])
      case Some(v) => Got(v, pos + 1)
      case None => FirstValid(input, pos + 1, parse)
  }

  /**
   * What the re-prompt protocol returns: the value of the first accepted line
   * and the cursor after it, every earlier line rejected; or the end of the
   * input when no line is accepted.
   */
  lemma {:induction false} FirstValidMeaning<T>(input: seq<string>, pos: nat, parse: string -> Option<T>)
    ensures var r := FirstValid(input, pos, parse);
            && (r.Got? ==> parse(input[r.next - 1]) == Some(r.value))
            && (r.Got? ==> forall k :: pos <= k < r.next - 1 ==> parse(input[k]).None?)
            && (r.Exhausted? ==> forall k :: pos <= k < |input| ==> parse(input[k]).None?)
    decreases |input| - pos
  {
    if pos < |input| && parse(input[pos]).None? {
      FirstValidMeaning(input, pos + 1, parse);
    }
  }

  /** The number of lines a scan from `pos` rejected, one error message each. */
  function Rejected<T>(r: Scan<T>, pos: nat, size: nat): nat
    requires r.Got? ==> pos < r.next
  {
    match r
    case Got(_, next) => next - 1 - pos
    case Exhausted => if pos <= size then size - pos else 0
  }

  /** The error line `read_selection` and `read_reconfirmation` print for a rejected selection or confirmation. */
  function InvalidNotice(invalid: string, subject: string, shouldBe: string, allowed: string): string {
    invalid + subject + ": " + shouldBe + "\n  " + allowed
  }

  // ---------------------------------------------------------------- what each reader accepts

  /** `read_email` accepts the trimmed line when it is a mail address. */
  function EmailValue(isAddress: string -> bool, line: string): (r: Option<string>)
    ensures r.Some? ==> '@' in r.value && isAddress(r.value) && r.value == Trim(line)
    ensures '@' in Trim(line) && isAddress(Trim(line)) ==> r == Some(Trim(line))
  {
    var t := Trim(Trim(line));
    TrimIdempotent(line);
    if '@' in t && isAddress(t) then Some(t) else None
  }

  function EmailRule(isAddress: string -> bool): string -> Option<string> {
    line => EmailValue(isAddress, line)
  }

  /** `read_selection` accepts a `usize` numeral inside the range. */
  function SelectionValue(range: RangeUsize, line: string): (r: Option<nat>)
    ensures r.Some? ==> range.Contains(r.value)
  {
    match ParseUsize(Trim(Trim(line)))
    case Some(x) => if range.lo <= x <= range.hi then Some(x) else None
    case None => None
  }

  function SelectionRule(range: RangeUsize): string -> Option<nat> {
    line => SelectionValue(range, line)
  }

  /** `read_reconfirmation` accepts "yes" (true) or "no" (false) in any letter case. */
  function DecisionValue(line: string): Option<bool> {
    var t := ToLower(Trim(line));
    if t == "yes" || t == "no" then Some(t == "yes") else None
  }

  // ---------------------------------------------------------------- the retrying readers

  /** A rejected line only moves the scan on by one. */
  lemma RejectedLine<T>(input: seq<string>, n: nat, parse: string -> Option<T>)
    requires n < |input| && parse(input[n]).None?
    ensures FirstValid(input, n, parse) == FirstValid(input, n + 1, parse)
  {
  }

  method ReadEmail(input: seq<string>, pos: nat, isAddress: string -> bool, promptInvalid: string)
    returns (r: Scan<string>, errors: seq<string>)
    ensures r == FirstValid(input, pos, EmailRule(isAddress))
    ensures r.Got? ==> '@' in r.value && isAddress(r.value)
    ensures errors == Repeat(promptInvalid, Rejected(r, pos, |input|))
  {
    var n := pos;
    errors := [];
    while n < |input|
      invariant pos <= n && (n <= |input| || n == pos)
      invariant FirstValid(input, n, EmailRule(isAddress)) == FirstValid(input, pos, EmailRule(isAddress))
      invariant errors == Repeat(promptInvalid, n - pos)
      decreases |input| - n
    {
      var t := Trim(ReadInput(input, n));
      if '@' in t && isAddress(t) {
        return Got(t, n + 1), errors;
      }
      RejectedLine(input, n, EmailRule(isAddress));
      errors := errors + [promptInvalid];
      n := n + 1;
    }
    return Exhausted, errors;
  }

  method ReadSelection(input: seq<string>, pos: nat, promptInvalid: string, promptObject: string,
                       promptShouldBe: string, range: RangeUsize)
    returns (r: Scan<nat>, errors: seq<string>)
    ensures r == FirstValid(input, pos, SelectionRule(range))
    ensures r.Got? ==> range.lo <= r.value <= range.hi
    ensures errors == Repeat(InvalidNotice(promptInvalid, promptObject, promptShouldBe, range.ValidValues()),
                             Rejected(r, pos, |input|))
  {
    var notice := InvalidNotice(promptInvalid, promptObject, promptShouldBe, range.ValidValues());
    var n := pos;
    errors := [];
    while n < |input|
      invariant pos <= n && (n <= |input| || n == pos)
      invariant FirstValid(input, n, SelectionRule(range)) == FirstValid(input, pos, SelectionRule(range))
      invariant errors == Repeat(notice, n - pos)
      decreases |input| - n
    {
      var choice := SelectionValue(range, input[n]);
      if choice.Some? {
        return Got(choice.value, n + 1), errors;
      }
      RejectedLine(input, n, SelectionRule(range));
      errors := errors + [notice];
      n := n + 1;
    }
    return Exhausted, errors;
  }

  method ReadReconfirmation(input: seq<string>, pos: nat, prompts: Prompts, reconfirmation: Confirmation)
    returns (r: Scan<bool>, errors: seq<string>)
    ensures r == FirstValid(input, pos, DecisionValue)
    ensures r.Got? ==> (r.value <==> ToLower(ReadInput(input, r.next - 1)) == "yes")
    ensures errors == Repeat(InvalidNotice(prompts.invalidLiteral, prompts.sendConfirmLiteral,
                                           prompts.shouldBeOneOfBelowLiteral, reconfirmation.ValidValues()),
                             Rejected(r, pos, |input|))
  {
    var notice := InvalidNotice(prompts.invalidLiteral, prompts.sendConfirmLiteral,
                                prompts.shouldBeOneOfBelowLiteral, reconfirmation.ValidValues());
    var n := pos;
    errors := [];
    while n < |input|
      invariant pos <= n && (n <= |input| || n == pos)
      invariant FirstValid(input, n, DecisionValue) == FirstValid(input, pos, DecisionValue)
      invariant errors == Repeat(notice, n - pos)
      decreases |input| - n
    {
      var token := ToLower(ReadInput(input, n));
      if token == "yes" || token == "no" {
        return Got(token == "yes", n + 1), errors;
      }
      RejectedLine(input, n, DecisionValue);
      errors := errors + [notice];
      n := n + 1;
    }
    return Exhausted, errors;
  }

  // ---------------------------------------------------------------- properties of the readers

  /** Lines that were rejected do not influence what a reader returns. */
  lemma {:induction false} RejectedLinesIgnored<T>(input: seq<string>, pos: nat, j: nat, parse: string -> Option<T>)
    requires pos <= j <= |input|
    requires forall k :: pos <= k < j ==> parse(input[k]).None?
    ensures FirstValid(input, pos, parse) == FirstValid(input, j, parse)
    decreases j - pos
  {
    if pos < j {
      RejectedLinesIgnored(input, pos + 1, j, parse);
    }
  }

  /** A typed address, whatever whitespace surrounds it, is returned at once. */
  lemma EmailTakesAddress(input: seq<string>, pos: nat, isAddress: string -> bool)
    requires pos < |input| && '@' in Trim(input[pos]) && isAddress(Trim(input[pos]))
    ensures FirstValid(input, pos, EmailRule(isAddress)) == Got(Trim(input[pos]), pos + 1)
  {
    assert EmailRule(isAddress)(input[pos]) == Some(Trim(input[pos]));
  }

  /** A typed in-range numeral, whatever whitespace surrounds it, is returned at once. */
  lemma SelectionTakesNumeral(input: seq<string>, pos: nat, range: RangeUsize, x: nat)
    requires pos < |input| && range.lo <= x <= range.hi
    requires Trim(input[pos]) == NatToString(x)
    ensures FirstValid(input, pos, SelectionRule(range)) == Got(x, pos + 1)
  {
    NumeralRoundTrip(x);
  }

  /** With an inverted range (no legal value) a selection never returns, whatever is typed. */
  lemma {:induction false} EmptyRangeNeverSelects(input: seq<string>, pos: nat, range: RangeUsize)
    requires range.lo > range.hi
    ensures FirstValid(input, pos, SelectionRule(range)) == Exhausted
    decreases |input| - pos
  {
    if pos < |input| {
      EmptyRangeNeverSelects(input, pos + 1, range);
    }
  }

  /**
   * The reconfirmation accepts exactly the two tokens of the yes/no listing,
   * in any letter case, and confirms exactly on the first of them.
   */
  lemma DecisionMatchesListing(line: string)
    ensures var c := Confirmation.YesOrNo();
            && (DecisionValue(line).Some? <==> ToLower(Trim(line)) in [c.confirm, c.cancel])
            && (DecisionValue(line) == Some(true) <==> ToLower(Trim(line)) == c.confirm)
  {
  }

  /** "yes" confirms in any of its eight spellings; "no" cancels in any of its four. */
  lemma DecisionSpellings(line: string)
    ensures var t := Trim(line);
            && (DecisionValue(line) == Some(true) <==> |t| == 3 && t[0] in "yY" && t[1] in "eE" && t[2] in "sS")
            && (DecisionValue(line) == Some(false) <==> |t| == 2 && t[0] in "nN" && t[1] in "oO")
  {
    LowerIsYes(Trim(line));
    LowerIsNo(Trim(line));
  }

  /** Any letter case of "yes" confirms, surrounding whitespace is ignored, and nothing else is accepted. */
  lemma DecisionExamples()
    ensures DecisionValue("YES") == Some(true) && DecisionValue("Yes") == Some(true)
    ensures DecisionValue("no") == Some(false) && DecisionValue("y") == None
    ensures DecisionValue("yes please") == None
  {
    TrimKeepsTrimmed("YES");
    assert ToLower("YES") == "yes";
    TrimKeepsTrimmed("Yes");
    assert ToLower("Yes") == "yes";
    TrimKeepsTrimmed("no");
    assert ToLower("no") == "no";
    TrimKeepsTrimmed("y");
    assert ToLower("y") == "y";
    TrimKeepsTrimmed("yes please");
    assert |ToLower("yes please")| == 10;
  }

  // ---------------------------------------------------------------- the message body

  /** The trimmed lines `lo` .. `hi` - 1, as `read_input` returns them. */
  function TrimmedLines(input: seq<string>, lo: nat, hi: nat): (r: seq<string>)
    ensures |r| == if lo <= hi then hi - lo else 0
    decreases hi
  {
    if hi <= lo then [] else TrimmedLines(input, lo, hi - 1) + [ReadInput(input, hi - 1)]
  }

  lemma {:induction false} TrimmedLinesAt(input: seq<string>, lo: nat, hi: nat, k: nat)
    requires lo + k < hi
    ensures TrimmedLines(input, lo, hi)[k] == ReadInput(input, lo + k)
    decreases hi
  {
    if lo + k < hi - 1 {
      TrimmedLinesAt(input, lo, hi - 1, k);
    }
  }

  /** What the body loop appends for the lines `ls`: each line and a line feed. */
  function Typed(ls: seq<string>): string {
    if ls == [] then "" else Typed(ls[..|ls| - 1]) + (ls[|ls| - 1] + "\n")
  }

  /** The lines joined by line feeds, as `join("\n")`. */
  function JoinLines(ls: seq<string>): string {
    if ls == [] then ""
    else if |ls| == 1 then ls[0]
    else JoinLines(ls[..|ls| - 1]) + "\n" + ls[|ls| - 1]
  }

  lemma {:induction false} TypedIsJoin(ls: seq<string>)
    requires ls != []
    ensures Typed(ls) == JoinLines(ls) + "\n"
    decreases |ls|
  {
    if |ls| > 1 {
      TypedIsJoin(ls[..|ls| - 1]);
    } else {
      assert ls[..0] == [];
    }
  }

  /** Joined lines end where their last line ends. */
  lemma JoinEndsWithLast(ls: seq<string>)
    requires ls != [] && ls[|ls| - 1] != []
    ensures var j := JoinLines(ls);
            j != [] && j[|j| - 1] == ls[|ls| - 1][|ls[|ls| - 1]| - 1]
  {
  }

  /** Lines `k` and `k` + 1 are both empty. */
  predicate EmptyPair(ls: seq<string>, k: nat)
    requires k + 1 < |ls|
  {
    ls[k] == [] && ls[k + 1] == []
  }

  /**
   * The lines `read_body` consumes: they end with two consecutive empty lines,
   * and no two consecutive lines before those are empty.
   */
  predicate ClosesBody(ls: seq<string>) {
    && |ls| >= 2
    && EmptyPair(ls, |ls| - 2)
    && forall k :: 0 <= k < |ls| - 2 ==> !EmptyPair(ls, k)
  }

  /** No proper prefix of consumed lines closes the body: reading stops at the first empty pair. */
  lemma ClosesBodyFirst(ls: seq<string>, m: nat)
    requires ClosesBody(ls) && 2 <= m < |ls|
    ensures !ClosesBody(ls[..m])
  {
    assert !EmptyPair(ls, m - 2);
  }

  /** The closing empty lines add two line feeds. */
  lemma TypedClosing(ls: seq<string>)
    requires |ls| >= 2 && EmptyPair(ls, |ls| - 2)
    ensures Typed(ls) == Typed(ls[..|ls| - 2]) + "\n\n"
  {
    var a := ls[..|ls| - 1];
    var b := ls[..|ls| - 2];
    assert a[..|a| - 1] == b;
    assert ls[|ls| - 1] + "\n" == "\n" && a[|a| - 1] + "\n" == "\n";
    calc {
      Typed(ls);
      Typed(a) + "\n";
      (Typed(b) + "\n") + "\n";
      { assert (Typed(b) + "\n") + "\n" == Typed(b) + "\n\n"; }
      Typed(b) + "\n\n";
    }
  }

  /** Trailing line feeds after text that ends in a visible character are what `trim_end` removes. */
  lemma TrimEndOfTyped(content: seq<string>)
    requires content != [] && content[|content| - 1] != [] && Trimmed(content[|content| - 1])
    ensures TrimEnd(Typed(content) + "\n\n") == JoinLines(content)
  {
    var j := JoinLines(content);
    JoinEndsWithLast(content);
    assert !IsSpace(j[|j| - 1]);
    TypedIsJoin(content);
    ThreeFeeds(j);
  }

  /** Three trailing line feeds are cut off text that does not end in whitespace. */
  lemma ThreeFeeds(j: string)
    requires j != [] && !IsSpace(j[|j| - 1])
    ensures TrimEnd((j + "\n") + "\n\n") == j
  {
    assert (j + "\n") + "\n\n" == j + "\n\n\n";
    assert AllSpace("\n\n\n");
    TrimEndDropsSpace(j, "\n\n\n");
  }

  /**
   * The body text: the lines before the closing pair, joined by line feeds;
   * the closing empty lines (and the final line feed) are cut off.
   */
  lemma BodyText(ls: seq<string>)
    requires ClosesBody(ls)
    requires forall k :: 0 <= k < |ls| ==> Trimmed(ls[k])
    ensures TrimEnd(Typed(ls)) == JoinLines(ls[..|ls| - 2])
  {
    var m := |ls| - 2;
    TypedClosing(ls);
    if m == 0 {
      assert AllSpace("\n\n");
      TrimEndDropsSpace("", "\n\n");
    } else {
      assert !EmptyPair(ls, m - 1);
      TrimEndOfTyped(ls[..m]);
    }
  }

  /**
   * The state of `read_body`'s loop after reading the trimmed lines `seen`:
   * `count` is the number of empty lines at their end (at most two), and no
   * earlier pair of consecutive lines is empty.
   */
  predicate BodyProgress(seen: seq<string>, count: nat) {
    && count <= 2 && count <= |seen|
    && (forall k :: 0 <= k < |seen| ==> Trimmed(seen[k]))
    && (count >= 1 ==> seen[|seen| - 1] == [])
    && (count == 2 ==> seen[|seen| - 2] == [])
    && (count == 0 && seen != [] ==> seen[|seen| - 1] != [])
    && (count == 1 && |seen| >= 2 ==> seen[|seen| - 2] != [])
    && (forall k :: 0 <= k < |seen| - 2 ==> !EmptyPair(seen, k))
  }

  /** Reading one more line keeps the loop state, with the empty-line count updated as in `read_body`. */
  lemma BodyStep(seen: seq<string>, count: nat, line: string)
    requires BodyProgress(seen, count) && count < 2 && Trimmed(line)
    ensures BodyProgress(seen + [line], if line == [] then count + 1 else 0)
  {
    var seen' := seen + [line];
    forall k | 0 <= k < |seen'| - 2
      ensures !EmptyPair(seen', k)
    {
      assert seen'[k] == seen[k] && seen'[k + 1] == seen[k + 1];
      if k < |seen| - 2 {
        assert !EmptyPair(seen, k);
      }
    }
  }

  /**
   * `read_body`: reads lines until two consecutive empty ones, returning the
   * text typed before them and the cursor after them. It always returns: past
   * the end of the input every line is empty.
   */
  method ReadBody(input: seq<string>, pos: nat) returns (body: string, next: nat)
    ensures next == BodyEnd(input, pos, 0) && body == BodyFrom(input, pos)
  {
    var acc := "";
    var emptyCount := 0;
    var n := pos;
    ghost var seen: seq<string> := [];
    while emptyCount < 2
      invariant pos <= n && seen == TrimmedLines(input, pos, n)
      invariant acc == Typed(seen)
      invariant BodyProgress(seen, emptyCount)
      decreases if n < |input| then |input| - n else 0, 2 - emptyCount
    {
      var line := ReadInput(input, n);
      var buf := line + "\n";
      acc := acc + buf;
      assert (seen + [line])[..|seen|] == seen;
      BodyStep(seen, emptyCount, line);
      seen := seen + [line];
      TrimWithLineFeed(line);
      if Trim(buf) == [] {
        emptyCount := emptyCount + 1;
      } else {
        emptyCount := 0;
      }
      n := n + 1;
    }
    BodyText(seen);
    body := TrimEnd(acc);
    next := n;
    BodyEndUnique(input, pos, next);
  }

  /** Every line `read_input` returns is trimmed. */
  lemma ReadInputTrimmed(input: seq<string>, n: nat)
    ensures Trimmed(ReadInput(input, n))
  {
  }

  /**
   * Where `read_body` stops when it resumes at line `n` with `count` empty
   * lines just read: the cursor after the second of two consecutive empty lines.
   */
  function BodyEnd(input: seq<string>, n: nat, count: nat): (r: nat)
    requires count < 2
    ensures n < r && (count == 0 ==> n + 2 <= r)
    decreases if n < |input| then |input| - n else 0, 2 - count
  {
    var c := if ReadInput(input, n) == [] then count + 1 else 0;
    if c == 2 then n + 1 else BodyEnd(input, n + 1, c)
  }

  /** A cursor that closes the body after the lines from `pos` is where `read_body` stops. */
  lemma {:induction false} BodyEndCloses(input: seq<string>, pos: nat, n: nat, count: nat, m: nat)
    requires pos <= n < m && count < 2
    requires ClosesBody(TrimmedLines(input, pos, m))
    requires BodyProgress(TrimmedLines(input, pos, n), count)
    ensures BodyEnd(input, n, count) == m
    decreases m - n
  {
    var ls := TrimmedLines(input, pos, m);
    var seen := TrimmedLines(input, pos, n);
    var line := ReadInput(input, n);
    var c := if line == [] then count + 1 else 0;
    TrimmedLinesAt(input, pos, m, n - pos);
    TrimmedLinesAt(input, pos, m, m - 1 - pos);
    TrimmedLinesAt(input, pos, m, m - 2 - pos);
    if n > pos {
      TrimmedLinesAt(input, pos, n, n - 1 - pos);
      TrimmedLinesAt(input, pos, m, n - 1 - pos);
    }
    if c == 2 {
      assert EmptyPair(ls, n - 1 - pos);
    } else {
      assert n + 1 < m;
      ReadInputTrimmed(input, n);
      BodyStep(seen, count, line);
      BodyEndCloses(input, pos, n + 1, c, m);
    }
  }

  /** Reading on from a loop state, `read_body` stops exactly when the lines it consumed close the body. */
  lemma {:induction false} BodyEndReaches(input: seq<string>, pos: nat, n: nat, count: nat)
    requires pos <= n && count < 2
    requires BodyProgress(TrimmedLines(input, pos, n), count)
    ensures ClosesBody(TrimmedLines(input, pos, BodyEnd(input, n, count)))
    decreases if n < |input| then |input| - n else 0, 2 - count
  {
    var seen := TrimmedLines(input, pos, n);
    var line := ReadInput(input, n);
    assert TrimmedLines(input, pos, n + 1) == seen + [line];
    ReadInputTrimmed(input, n);
    BodyStep(seen, count, line);
    if line == [] && count == 1 {
      var ls := seen + [line];
      assert EmptyPair(ls, |ls| - 2);
    } else {
      BodyEndReaches(input, pos, n + 1, if line == [] then count + 1 else 0);
    }
  }

  /**
   * The lines `read_body` consumes from `pos` end with its first closing
   * pair, and any cursor at which the body closes is that one.
   */
  lemma BodyEndClosesBody(input: seq<string>, pos: nat)
    ensures ClosesBody(TrimmedLines(input, pos, BodyEnd(input, pos, 0)))
  {
    BodyEndReaches(input, pos, pos, 0);
  }

  /** The text `read_body` returns when it starts at line `lo`. */
  function BodyFrom(input: seq<string>, lo: nat): string {
    var hi := BodyEnd(input, lo, 0);
    JoinLines(TrimmedLines(input, lo, hi)[..hi - lo - 2])
  }

  /** The lines `read_body` consumes are determined by the input: it stops at the first closing pair. */
  lemma BodyEndUnique(input: seq<string>, pos: nat, m: nat)
    requires ClosesBody(TrimmedLines(input, pos, m))
    ensures BodyEnd(input, pos, 0) == m
    ensures BodyFrom(input, pos) == JoinLines(TrimmedLines(input, pos, m)[..m - pos - 2])
  {
    BodyEndCloses(input, pos, pos, 0, m);
  }

  /** A blank line inside the body is kept; the closing pair is not. */
  lemma BodyExample()
    ensures var input := ["a", "", "b", "", ""];
            && BodyEnd(input, 0, 0) == 5
            && JoinLines(TrimmedLines(input, 0, 5)[..3]) == "a\n\nb"
  {
    var input := ["a", "", "b", "", ""];
    TrimKeepsTrimmed("a");
    TrimKeepsTrimmed("b");
    assert TrimmedLines(input, 0, 5) == ["a", "", "b", "", ""];
    var content := ["a", "", "b"];
    assert TrimmedLines(input, 0, 5)[..3] == content;
    assert content[..2] == ["a", ""] && ["a", ""][..1] == ["a"];
    assert JoinLines(["a", ""]) == "a\n";
  }

  // ---------------------------------------------------------------- showing a fetched message

  /** A line `print_body` shows once the body has started: not a "Content…" or "To…" header. */
  predicate Shown(line: string) {
    !(StartsWith(line, "Content") || StartsWith(line, "To"))
  }

  /** The lines `print_body` shows: from the first line starting with "From: " on, the shown ones. */
  function BodyView(email: string): seq<string> {
    var ls := Lines(email);
    match FirstWithPrefix(ls, "From: ")
    case None => []
    case Some(f) => Filter(ls[f..], Shown)
  }

  /** Each line behind two spaces, the `println!("  {}", line)` of `print_body`. */
  function Indent(ls: seq<string>): seq<string>
  {
    if ls == [] then [] else Indent(ls[..|ls| - 1]) + ["  " + ls[|ls| - 1]]
  }

  lemma IndentSnoc(ls: seq<string>, line: string)
    ensures Indent(ls + [line]) == Indent(ls) + ["  " + line]
  {
    assert (ls + [line])[..|ls|] == ls;
  }

  /** `print_body`: the printed lines, between the two horizontal rules. */
  method PrintBody(email: string, prompts: Prompts) returns (out: seq<string>)
    ensures out == [prompts.horizontalStart] + Indent(BodyView(email)) + [prompts.horizontalEnd]
  {
    var ls := Lines(email);
    ghost var f := FirstWithPrefix(ls, "From: ");
    ghost var start := 0;
    ghost var shown: seq<string> := [];
    out := [prompts.horizontalStart];
    var body := false;
    var i := 0;
    while i < |ls|
      invariant start <= i <= |ls|
      invariant body <==> f.Some? && f.value < i
      invariant body ==> start == f.value
      invariant !body ==> start == i
      invariant shown == Filter(ls[start..i], Shown)
      invariant out == [prompts.horizontalStart] + Indent(shown)
    {
      var line := ls[i];
      if StartsWith(line, "From: ") {
        FirstWithPrefixIsFirst(ls, "From: ", i);
        body := true;
      }
      if body {
        FilterSliceSnoc(ls, start, i, Shown);
        if Shown(line) {
          IndentSnoc(shown, line);
          AppendSnoc([prompts.horizontalStart], Indent(shown), "  " + line);
          shown := shown + [line];
          out := out + ["  " + line];
        }
      } else {
        start := i + 1;
      }
      i := i + 1;
    }
    assert body ==> ls[start..i] == ls[f.value..];
    out := out + [prompts.horizontalEnd];
  }

  /** A shown line is one of the message's lines from the "From: " line on; every such line that is not a header is shown. */
  lemma BodyViewMembers(email: string, line: string)
    ensures var ls := Lines(email);
            var f := FirstWithPrefix(ls, "From: ");
            line in BodyView(email) <==> f.Some? && line in ls[f.value..] && Shown(line)
  {
    var ls := Lines(email);
    var f := FirstWithPrefix(ls, "From: ");
    if f.Some? {
      FilterMembers(ls[f.value..], Shown, line);
    }
  }
}
