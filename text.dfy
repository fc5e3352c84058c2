/**
 * The string operations of Rust's standard library that the session controller
 * relies on, restricted to ASCII: `trim`, `trim_end`, `to_lowercase`,
 * `starts_with`, `contains`, `lines`, `to_string` on integers, `parse::<usize>`
 * and the `", "`-joined listing produced by `join`.
 */
module Text {
  import opened Wrappers

  /** The largest `usize` on a 64-bit target. */
  const USIZE_MAX: nat := 0xFFFF_FFFF_FFFF_FFFF

  // ---------------------------------------------------------------- whitespace

  /** ASCII whitespace as `char::is_whitespace` sees it. */
  predicate IsSpace(c: char) {
    c == ' ' || c == '\t' || c == '\n' || c == '\U{0B}' || c == '\U{0C}' || c == '\r'
  }

  ghost predicate AllSpace(s: string) {
    forall i :: 0 <= i < |s| ==> IsSpace(s[i])
  }

  /** `str::trim_start`: drops the longest all-whitespace prefix. */
  function TrimStart(s: string): (r: string)
    ensures |r| <= |s|
    ensures r == [] || !IsSpace(r[0])
    ensures r == [] || r[|r| - 1] == s[|s| - 1]
  {
    if s != [] && IsSpace(s[0]) then TrimStart(s[1..]) else s
  }

  /** `trim_start` keeps a suffix and drops only whitespace. */
  lemma {:induction false} TrimStartDropsSpace(s: string)
    ensures TrimStart(s) == s[|s| - |TrimStart(s)|..]
    ensures AllSpace(s[..|s| - |TrimStart(s)|])
    decreases |s|
  {
    if s != [] && IsSpace(s[0]) {
      var r := TrimStart(s[1..]);
      TrimStartDropsSpace(s[1..]);
      assert s[..|s| - |r|] == [s[0]] + s[1..][..|s| - 1 - |r|];
    }
  }

  /** `str::trim_end`: drops the longest all-whitespace suffix. */
  function TrimEnd(s: string): (r: string)
    ensures |r| <= |s|
    ensures r == [] || !IsSpace(r[|r| - 1])
    ensures r == [] || r[0] == s[0]
  {
    if s != [] && IsSpace(s[|s| - 1]) then TrimEnd(s[..|s| - 1]) else s
  }

  /** `trim_end` keeps a prefix and drops only whitespace. */
  lemma {:induction false} TrimEndDropsSpaceOf(s: string)
    ensures TrimEnd(s) == s[..|TrimEnd(s)|]
    ensures AllSpace(s[|TrimEnd(s)|..])
    decreases |s|
  {
    if s != [] && IsSpace(s[|s| - 1]) {
      var r := TrimEnd(s[..|s| - 1]);
      TrimEndDropsSpaceOf(s[..|s| - 1]);
      assert s[|r|..] == s[..|s| - 1][|r|..] + [s[|s| - 1]];
    }
  }

  /** `r` is `s` with the whitespace `s[..a]` and `s[a + |r|..]` cut off. */
  ghost predicate StripsTo(s: string, r: string, a: nat) {
    a + |r| <= |s| && s[a..a + |r|] == r && AllSpace(s[..a]) && AllSpace(s[a + |r|..])
  }

  /** Neither end is whitespace. */
  predicate Trimmed(t: string) {
    t == [] || (!IsSpace(t[0]) && !IsSpace(t[|t| - 1]))
  }

  /** `str::trim`: no whitespace at either end. */
  function Trim(s: string): (r: string)
    ensures Trimmed(r)
  {
    TrimEnd(TrimStart(s))
  }

  /** Trimming removes only whitespace, from the front and from the back. */
  lemma TrimStrips(s: string)
    ensures StripsTo(s, Trim(s), |s| - |TrimStart(s)|)
  {
    var t := TrimStart(s);
    var r := TrimEnd(t);
    var a := |s| - |t|;
    TrimStartDropsSpace(s);
    TrimEndDropsSpaceOf(t);
    assert t[..|r|] == s[a..a + |r|];
    assert t[|r|..] == s[a + |r|..];
  }

  /** Trimming yields nothing exactly when the text is all whitespace. */
  lemma TrimEmptyIff(s: string)
    ensures Trim(s) == [] <==> AllSpace(s)
  {
    TrimStrips(s);
    var a := |s| - |TrimStart(s)|;
    if Trim(s) == [] {
      var t := TrimStart(s);
      TrimEndDropsSpaceOf(t);
      assert t == [];
      forall i | 0 <= i < |s| ensures IsSpace(s[i]) {
        assert s[..a][i] == s[i];
      }
    }
  }

  /** Text with no whitespace at either end is left as it is. */
  lemma TrimKeepsTrimmed(t: string)
    requires Trimmed(t)
    ensures Trim(t) == t
  {
    assert TrimStart(t) == t;
  }

  /** One space on each side of non-empty trimmed text is cut off. */
  lemma TrimPadded(t: string)
    requires t != [] && Trimmed(t)
    ensures Trim(" " + t + " ") == t
  {
    var s := " " + t + " ";
    assert s[1..] == t + " ";
    assert TrimStart(t + " ") == t + " ";
    assert (t + " ")[..|t|] == t;
    assert TrimEnd(t) == t;
  }

  /** Trimming twice is trimming once (the readers trim each line twice). */
  lemma TrimIdempotent(s: string)
    ensures Trim(Trim(s)) == Trim(s)
  {
  }

  /** Whitespace appended to text that does not end in whitespace is exactly what `trim_end` removes. */
  lemma {:induction false} TrimEndDropsSpace(t: string, w: string)
    requires t == [] || !IsSpace(t[|t| - 1])
    requires AllSpace(w)
    ensures TrimEnd(t + w) == t
    decreases |w|
  {
    if w != [] {
      var w' := w[..|w| - 1];
      assert (t + w)[..|t + w| - 1] == t + w';
      TrimEndDropsSpace(t, w');
    } else {
      assert t + w == t;
    }
  }

  /** A trimmed text followed by a line feed trims to nothing exactly when the text is empty. */
  lemma TrimWithLineFeed(t: string)
    requires Trimmed(t)
    ensures Trim(t + "\n") == [] <==> t == []
  {
    if t == [] {
      assert TrimStart("\n") == TrimStart([]);
    } else {
      assert TrimStart(t + "\n") == t + "\n";
      TrimEndDropsSpace(t, "\n");
    }
  }

  // ---------------------------------------------------------------- case, prefixes, search

  function LowerChar(c: char): char {
    if 'A' <= c <= 'Z' then (c as int + 32) as char else c
  }

  /** `str::to_lowercase` on ASCII letters. */
  function ToLower(s: string): string {
    seq(|s|, i requires 0 <= i < |s| => LowerChar(s[i]))
  }

  /** The texts that lower-case to "yes" are the eight spellings of yes in any case. */
  lemma LowerIsYes(t: string)
    ensures ToLower(t) == "yes" <==>
              |t| == 3 && t[0] in "yY" && t[1] in "eE" && t[2] in "sS"
  {
    if ToLower(t) == "yes" {
      assert ToLower(t)[0] == 'y' && ToLower(t)[1] == 'e' && ToLower(t)[2] == 's';
    }
    if |t| == 3 && t[0] in "yY" && t[1] in "eE" && t[2] in "sS" {
      assert ToLower(t) == "yes";
    }
  }

  /** The texts that lower-case to "no" are the four spellings of no in any case. */
  lemma LowerIsNo(t: string)
    ensures ToLower(t) == "no" <==> |t| == 2 && t[0] in "nN" && t[1] in "oO"
  {
    if ToLower(t) == "no" {
      assert ToLower(t)[0] == 'n' && ToLower(t)[1] == 'o';
    }
    if |t| == 2 && t[0] in "nN" && t[1] in "oO" {
      assert ToLower(t) == "no";
    }
  }

  predicate StartsWith(s: string, prefix: string) {
    |prefix| <= |s| && s[..|prefix|] == prefix
  }

  /** The first position of `c` in `s`, as `str::find` with a char. */
  function IndexOf(s: string, c: char): (r: Option<nat>)
    ensures r.None? <==> c !in s
    ensures r.Some? ==> r.value < |s| && s[r.value] == c && c !in s[..r.value]
  {
    if s == [] then None
    else if s[0] == c then Some(0)
    else
      match IndexOf(s[1..], c)
      case None => None
      case Some(i) =>
        assert s[..i + 1] == [s[0]] + s[1..][..i];
        Some(i + 1)
  }

  /** The text after the last `c`, or all of `s` when it has none (what `rsplitn(2, c)` yields first). */
  function AfterLast(s: string, c: char): (r: string)
    ensures c !in r
    ensures c in s ==> |r| < |s| && s == s[..|s| - |r| - 1] + [c] + r
    ensures c !in s ==> r == s
  {
    if s == [] then []
    else if s[|s| - 1] == c then
      assert s == s[..|s| - 1] + [c];
      []
    else
      var r := AfterLast(s[..|s| - 1], c);
      assert s == s[..|s| - 1] + [s[|s| - 1]];
      r + [s[|s| - 1]]
  }

  /** A character other than `c` at the end belongs to the text after the last `c`. */
  lemma AfterLastSnoc(s: string, x: char, c: char)
    requires x != c
    ensures AfterLast(s + [x], c) == AfterLast(s, c) + [x]
  {
    assert (s + [x])[..|s|] == s;
  }

  /** What follows the final `c` is the text after the last `c`. */
  lemma {:induction false} AfterLastOf(pre: string, c: char, post: string)
    requires c !in post
    ensures AfterLast(pre + [c] + post, c) == post
    decreases |post|
  {
    if post == [] {
      assert pre + [c] + post == pre + [c];
    } else {
      var init := post[..|post| - 1];
      var last := post[|post| - 1];
      assert post == init + [last];
      assert pre + [c] + post == (pre + [c] + init) + [last];
      AfterLastSnoc(pre + [c] + init, last, c);
      AfterLastOf(pre, c, init);
    }
  }


  // ---------------------------------------------------------------- lines

  /** Drops one carriage return in front of a line feed. */
  function StripCr(line: string): string {
    if line != [] && line[|line| - 1] == '\r' then line[..|line| - 1] else line
  }

  /**
   * `str::lines`: split at each '\n' (a "\r\n" counts as one line ending), with
   * no empty last line after a final line ending.
   */
  function Lines(s: string): (r: seq<string>)
    ensures s == [] <==> r == []
    decreases |s|
  {
    if s == [] then []
    else
      match IndexOf(s, '\n')
      case None => [s]
      case Some(i) => [StripCr(s[..i])] + Lines(s[i + 1..])
  }

  /** Text without a line feed is a single line. */
  lemma OneLine(s: string)
    requires s != [] && '\n' !in s
    ensures Lines(s) == [s]
  {
  }

  /** No line contains a line feed. */
  lemma {:induction false} LinesHaveNoBreaks(s: string, k: nat)
    requires k < |Lines(s)|
    ensures '\n' !in Lines(s)[k]
    decreases |s|
  {
    match IndexOf(s, '\n')
    case None =>
    case Some(i) =>
      if k == 0 {
        var line := s[..i];
        assert forall j :: 0 <= j < |StripCr(line)| ==> StripCr(line)[j] == line[j];
      } else {
        LinesHaveNoBreaks(s[i + 1..], k - 1);
      }
  }

  /** The index of the first line that starts with `prefix`, as `Iterator::find` / `position`. */
  function FirstWithPrefix(ls: seq<string>, prefix: string): (r: Option<nat>)
    ensures r.Some? ==> r.value < |ls| && StartsWith(ls[r.value], prefix)
  {
    if ls == [] then None
    else if StartsWith(ls[0], prefix) then Some(0)
    else
      match FirstWithPrefix(ls[1..], prefix)
      case None => None
      case Some(i) => Some(i + 1)
  }

  /** No line before the one found starts with `prefix`, and one is found whenever a line does. */
  lemma {:induction false} FirstWithPrefixIsFirst(ls: seq<string>, prefix: string, k: nat)
    requires k < |ls| && StartsWith(ls[k], prefix)
    ensures FirstWithPrefix(ls, prefix).Some? && FirstWithPrefix(ls, prefix).value <= k
    decreases k
  {
    if k > 0 && !StartsWith(ls[0], prefix) {
      FirstWithPrefixIsFirst(ls[1..], prefix, k - 1);
    }
  }

  // ---------------------------------------------------------------- decimal numerals

  predicate IsDigit(c: char) {
    '0' <= c <= '9'
  }

  predicate AllDigits(s: string) {
    forall i :: 0 <= i < |s| ==> IsDigit(s[i])
  }

  function DigitChar(d: nat): char
    requires d < 10
  {
    ('0' as int + d) as char
  }

  /** The value of a string of decimal digits, as a mathematical integer. */
  function DigitsValue(s: string): nat
    requires AllDigits(s)
  {
    if s == [] then 0 else DigitsValue(s[..|s| - 1]) * 10 + (s[|s| - 1] as int - '0' as int)
  }

  /** `usize::to_string`: the shortest decimal numeral. */
  function NatToString(n: nat): (r: string)
    ensures r != [] && AllDigits(r)
    ensures |r| > 1 ==> r[0] != '0'
  {
    if n < 10 then [DigitChar(n)] else NatToString(n / 10) + [DigitChar(n % 10)]
  }

  /**
   * `str::parse::<usize>`: an optional '+' (not on its own), then one or more
   * decimal digits, with a value that fits in a `usize`. No whitespace is allowed.
   */
  function ParseUsize(s: string): (r: Option<nat>)
    ensures r.Some? ==> r.value <= USIZE_MAX
  {
    var digits := if |s| > 1 && s[0] == '+' then s[1..] else s;
    if digits != [] && AllDigits(digits) && DigitsValue(digits) <= USIZE_MAX then
      Some(DigitsValue(digits))
    else None
  }

  lemma {:induction false} NumeralValue(n: nat)
    ensures DigitsValue(NatToString(n)) == n
  {
    if n >= 10 {
      NumeralValue(n / 10);
      var s := NatToString(n);
      assert s[..|s| - 1] == NatToString(n / 10);
    }
  }

  /** Parsing the numeral of a `usize` gives it back. */
  lemma NumeralRoundTrip(n: nat)
    requires n <= USIZE_MAX
    ensures ParseUsize(NatToString(n)) == Some(n)
  {
    NumeralValue(n);
  }

  // ---------------------------------------------------------------- ", "-joined listings

  /** `Vec::join(", ")`. */
  function JoinComma(xs: seq<string>): string {
    if |xs| == 0 then ""
    else if |xs| == 1 then xs[0]
    else xs[0] + ", " + JoinComma(xs[1..])
  }

  /** Splits "a, b, c" at each ", " (a ',' that is not followed by ' ' is malformed). */
  function SplitComma(s: string): Option<seq<string>>
    decreases |s|
  {
    match IndexOf(s, ',')
    case None => Some([s])
    case Some(i) =>
      if i + 1 < |s| && s[i + 1] == ' ' then
        match SplitComma(s[i + 2..])
        case None => None
        case Some(rest) => Some([s[..i]] + rest)
      else None
  }

  /** Reads back a "[a, b, c]" listing into its items. */
  function ParseListing(s: string): Option<seq<string>> {
    if |s| >= 2 && s[0] == '[' && s[|s| - 1] == ']' then
      var inner := s[1..|s| - 1];
      if inner == [] then Some([]) else SplitComma(inner)
    else None
  }

  lemma {:induction false} SplitJoin(xs: seq<string>)
    requires xs != []
    requires forall k :: 0 <= k < |xs| ==> ',' !in xs[k]
    ensures SplitComma(JoinComma(xs)) == Some(xs)
    decreases |xs|
  {
    if |xs| == 1 {
      assert IndexOf(xs[0], ',') == None;
      assert xs == [xs[0]];
    } else {
      var rest := JoinComma(xs[1..]);
      var s := xs[0] + ", " + rest;
      assert s[..|xs[0]|] == xs[0];
      assert s[|xs[0]|] == ',' && s[|xs[0]| + 1] == ' ';
      assert c: ',' !in s[..|xs[0]|];
      assert IndexOf(s, ',') == Some(|xs[0]|);
      assert s[|xs[0]| + 2..] == rest;
      SplitJoin(xs[1..]);
      assert [xs[0]] + xs[1..] == xs;
    }
  }

  /** A "[" ... "]" listing of non-empty, comma-free items reads back as exactly those items, in order. */
  lemma ListingRoundTrip(xs: seq<string>)
    requires forall k :: 0 <= k < |xs| ==> xs[k] != [] && ',' !in xs[k]
    ensures ParseListing("[" + JoinComma(xs) + "]") == Some(xs)
  {
    var s := "[" + JoinComma(xs) + "]";
    assert s[1..|s| - 1] == JoinComma(xs);
    if xs != [] {
      assert JoinComma(xs) != [] by {
        if |xs| > 1 { assert |JoinComma(xs)| >= |xs[0]|; }
      }
      SplitJoin(xs);
    }
  }
}
