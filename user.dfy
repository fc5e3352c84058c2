/**
 * The user of the mail client: logging in from typed credentials, composing
 * and sending a message behind a confirmation, and browsing a mailbox.
 * Servers are the abstract clients of module Clients; whether a server
 * accepts a login is an oracle.
 */
module Users {
  import opened Wrappers
  import opened Seqs
  import opened Text
  import opened Types
  import opened Read
  import opened Clients

  // ---------------------------------------------------------------- the user record

  /** A user's fields as a value: what `User::build` returns. */
  datatype Account = Account(smtpDomain: string, imapDomain: string, emailAddr: string, password: string)

  /** `Address::domain`: the part after the final '@'. */
  function Domain(addr: string): (d: string)
    ensures '@' !in d
    ensures '@' in addr ==> |d| < |addr| && addr == addr[..|addr| - |d| - 1] + "@" + d
  {
    AfterLast(addr, '@')
  }

  /** The record built for an address: both server names are the address's domain behind "smtp." and "imap.". */
  function AccountFor(addr: string, password: string): Account {
    var d := Domain(addr);
    Account("smtp." + d, "imap." + d, addr, password)
  }

  /** The invariant of a user record: an address with a domain, and the server names derived from it. */
  predicate WellFormed(a: Account) {
    '@' in a.emailAddr && a == AccountFor(a.emailAddr, a.password)
  }

  /**
   * `User::build` on the console: the first line that is a mail address, then
   * the next line (trimmed) as the password. It never returns when no line is
   * an address.
   */
  function BuildSpec(input: seq<string>, pos: nat, isAddress: string -> bool): (r: Scan<Account>)
    ensures r.Got? ==> WellFormed(r.value) && isAddress(r.value.emailAddr)
    ensures r.Got? ==> pos + 2 <= r.next <= |input| + 1
  {
    FirstValidMeaning(input, pos, EmailRule(isAddress));
    match FirstValid(input, pos, EmailRule(isAddress))
    case Exhausted => Exhausted
    case Got(addr, p) => Got(AccountFor(addr, ReadInput(input, p)), p + 1)
  }

  method Build(input: seq<string>, pos: nat, isAddress: string -> bool, promptInvalid: string)
    returns (r: Scan<Account>)
    ensures r == BuildSpec(input, pos, isAddress)
  {
    var email, _ := ReadEmail(input, pos, isAddress, promptInvalid);
    if email.Exhausted? {
      return Exhausted;
    }
    var password := ReadInput(input, email.next);
    r := Got(AccountFor(email.value, password), email.next + 1);
  }

  /** The domain is what follows the last '@', and both server names are built on it. */
  lemma DomainAfterLastAt(local: string, d: string, password: string)
    requires '@' !in d
    ensures Domain(local + "@" + d) == d
    ensures AccountFor(local + "@" + d, password) == Account("smtp." + d, "imap." + d, local + "@" + d, password)
  {
    AfterLastOf(local, '@', d);
  }

  /**
   * Lines that are not addresses are skipped; the password is the line after
   * the address, without surrounding whitespace.
   */
  lemma BuildSkipsNonAddress(junk: string, addr: string, password: string, isAddress: string -> bool)
    requires Trimmed(junk) && '@' !in junk
    requires Trimmed(addr) && '@' in addr && isAddress(addr)
    requires password != [] && Trimmed(password)
    ensures BuildSpec([junk, addr, " " + password + " "], 0, isAddress) == Got(AccountFor(addr, password), 3)
  {
    var input := [junk, addr, " " + password + " "];
    TrimKeepsTrimmed(junk);
    TrimKeepsTrimmed(addr);
    TrimPadded(password);
    assert EmailValue(isAddress, junk).None?;
    assert FirstValid(input, 1, EmailRule(isAddress)) == Got(addr, 2);
    assert FirstValid(input, 0, EmailRule(isAddress)) == Got(addr, 2);
  }

  // ---------------------------------------------------------------- logging in

  datatype Protocol = Smtp | Imap

  /** The server a login goes to. */
  function Host(a: Account, p: Protocol): string {
    match p
    case Smtp => a.smtpDomain
    case Imap => a.imapDomain
  }

  /** A login that went through: the credentials that worked, and at which attempt (counting from 0). */
  datatype Connected = Connected(account: Account, attempt: nat)

  /**
   * The retry loop of `login_smtp` / `login_imap`. `connect(k, host, addr,
   * password)` is the server's answer to the k-th attempt. On a refusal the
   * whole user record is replaced by a freshly built one.
   */
  function LoginSpec(a: Account, p: Protocol, attempt: nat, input: seq<string>, pos: nat,
                     isAddress: string -> bool, connect: (nat, string, string, string) -> bool): (r: Scan<Connected>)
    ensures r.Got? ==> connect(r.value.attempt, Host(r.value.account, p), r.value.account.emailAddr, r.value.account.password)
    ensures r.Got? ==> attempt <= r.value.attempt && pos <= r.next
    ensures r.Got? && WellFormed(a) ==> WellFormed(r.value.account)
    decreases if pos <= |input| then |input| + 1 - pos else 0
  {
    if connect(attempt, Host(a, p), a.emailAddr, a.password) then Got(Connected(a, attempt), pos)
    else
      match BuildSpec(input, pos, isAddress)
      case Exhausted => Exhausted
      case Got(a', p') => LoginSpec(a', p, attempt + 1, input, p', isAddress, connect)
  }

  /** A refused attempt moves on to the rebuilt record, one attempt later. */
  lemma LoginRetry(a: Account, p: Protocol, attempt: nat, input: seq<string>, pos: nat,
                   isAddress: string -> bool, connect: (nat, string, string, string) -> bool, a': Account, pos': nat)
    requires !connect(attempt, Host(a, p), a.emailAddr, a.password)
    ensures BuildSpec(input, pos, isAddress) == Got(a', pos') ==>
              LoginSpec(a, p, attempt, input, pos, isAddress, connect)
              == LoginSpec(a', p, attempt + 1, input, pos', isAddress, connect)
  {
  }

  /** Every retry consumes two typed lines (an address and a password) at least. */
  lemma {:induction false} LoginRetriesUseInput(a: Account, p: Protocol, attempt: nat, input: seq<string>, pos: nat,
                                                isAddress: string -> bool, connect: (nat, string, string, string) -> bool)
    ensures var r := LoginSpec(a, p, attempt, input, pos, isAddress, connect);
            r.Got? ==> 2 * (r.value.attempt - attempt) <= r.next - pos
    decreases if pos <= |input| then |input| + 1 - pos else 0
  {
    if !connect(attempt, Host(a, p), a.emailAddr, a.password) {
      match BuildSpec(input, pos, isAddress)
      case Exhausted =>
      case Got(a', p') => LoginRetriesUseInput(a', p, attempt + 1, input, p', isAddress, connect);
    }
  }

  /** A server that refuses every attempt from `attempt` on is never logged in to: the loop spins. */
  lemma {:induction false} LoginRefusedForever(a: Account, p: Protocol, attempt: nat, input: seq<string>, pos: nat,
                                               isAddress: string -> bool, connect: (nat, string, string, string) -> bool)
    requires forall k, host, addr, password :: attempt <= k ==> !connect(k, host, addr, password)
    ensures LoginSpec(a, p, attempt, input, pos, isAddress, connect) == Exhausted
    decreases if pos <= |input| then |input| + 1 - pos else 0
  {
    assert !connect(attempt, Host(a, p), a.emailAddr, a.password);
    match BuildSpec(input, pos, isAddress)
    case Exhausted =>
    case Got(a', p') => LoginRefusedForever(a', p, attempt + 1, input, p', isAddress, connect);
  }

  // ---------------------------------------------------------------- composing

  /**
   * The message `compose_and_send` builds from the typed lines: the recipient
   * is the first line that is an address, the subject the next line, and the
   * body what `read_body` reads after it; then the cursor after the body.
   */
  function DraftSpec(from: string, input: seq<string>, pos: nat, isAddress: string -> bool): (r: Scan<Mail>)
    ensures r.Got? ==> r.value.from == from && pos + 4 <= r.next
  {
    match FirstValid(input, pos, EmailRule(isAddress))
    case Exhausted => Exhausted
    case Got(to, p1) => Got(Mail(from, to, ReadInput(input, p1), BodyFrom(input, p1 + 1)), BodyEnd(input, p1 + 1, 0))
  }

  /** What `compose_and_send` does with the typed lines, short of the server's answer. */
  datatype Plan = Stalled | Cancelled(next: nat) | Confirmed(mail: Mail, next: nat)

  /** The drafted message is sent only when the reconfirmation that follows it says yes. */
  function ComposePlan(from: string, input: seq<string>, pos: nat, isAddress: string -> bool): (p: Plan)
    ensures p.Confirmed? ==> p.mail.from == from
    ensures !p.Stalled? ==> pos + 4 <= p.next
  {
    match DraftSpec(from, input, pos, isAddress)
    case Exhausted => Stalled
    case Got(mail, p2) =>
      match FirstValid(input, p2, DecisionValue)
      case Exhausted => Stalled
      case Got(yes, p3) => if yes then Confirmed(mail, p3) else Cancelled(p3)
  }

  /** A message typed in full and confirmed (in any letter case) is the one handed to the relay. */
  lemma ComposeConfirmed(from: string, to: string, subject: string, text: string, answer: string,
                         isAddress: string -> bool)
    requires Trimmed(to) && '@' in to && isAddress(to)
    requires Trimmed(subject) && Trimmed(text) && text != []
    requires Trimmed(answer) && ToLower(answer) == "yes"
    ensures ComposePlan(from, [to, subject, text, "", "", answer], 0, isAddress)
            == Confirmed(Mail(from, to, subject, text), 6)
  {
    var input := [to, subject, text, "", "", answer];
    TrimKeepsTrimmed(to);
    TrimKeepsTrimmed(subject);
    TrimKeepsTrimmed(text);
    TrimKeepsTrimmed(answer);
    assert BodyEnd(input, 4, 1) == 5;
    assert BodyEnd(input, 3, 0) == 5;
    assert BodyEnd(input, 2, 0) == 5;
    assert TrimmedLines(input, 2, 5)[..1] == [text];
  }

  /** An invalid answer is asked again, and "no" cancels. */
  lemma ComposeCancelled(from: string, to: string, subject: string, text: string, other: string, answer: string,
                         isAddress: string -> bool)
    requires Trimmed(to) && '@' in to && isAddress(to)
    requires Trimmed(subject) && Trimmed(text) && text != []
    requires DecisionValue(other).None?
    requires Trimmed(answer) && ToLower(answer) == "no"
    ensures ComposePlan(from, [to, subject, text, "", "", other, answer], 0, isAddress) == Cancelled(7)
  {
    var input := [to, subject, text, "", "", other, answer];
    TrimKeepsTrimmed(to);
    TrimKeepsTrimmed(text);
    TrimKeepsTrimmed(answer);
    assert BodyEnd(input, 4, 1) == 5;
    assert BodyEnd(input, 3, 0) == 5;
    assert BodyEnd(input, 2, 0) == 5;
    assert FirstValid(input, 6, DecisionValue) == Got(false, 7);
    assert FirstValid(input, 5, DecisionValue) == Got(false, 7);
  }

  /** Without an answer after the body nothing is sent and the call does not return. */
  lemma ComposeUnanswered(from: string, to: string, subject: string, text: string, isAddress: string -> bool)
    requires Trimmed(to) && '@' in to && isAddress(to)
    requires Trimmed(text) && text != []
    ensures ComposePlan(from, [to, subject, text, "", ""], 0, isAddress) == Stalled
  {
    var input := [to, subject, text, "", ""];
    TrimKeepsTrimmed(to);
    TrimKeepsTrimmed(text);
    assert BodyEnd(input, 4, 1) == 5;
    assert BodyEnd(input, 3, 0) == 5;
    assert BodyEnd(input, 2, 0) == 5;
  }

  // ---------------------------------------------------------------- browsing a mailbox

  /** A mailbox the browser offers: its name has no '&' (modified UTF-7 names are skipped). */
  predicate Listable(name: string) {
    '&' !in name
  }

  function Usable(names: seq<string>): (r: seq<string>)
    ensures |r| <= |names|
  {
    Filter(names, Listable)
  }

  /** A menu line: the 1-based label in brackets, then the item. */
  function Entry(number: nat, item: string): string {
    "  [" + NatToString(number) + "] " + item
  }

  /** The items as a menu, labelled 1, 2, ... */
  function Listing(items: seq<string>): seq<string>
  {
    seq(|items|, k requires 0 <= k < |items| => Entry(k + 1, items[k]))
  }

  lemma ListingSnoc(items: seq<string>, item: string)
    ensures Listing(items + [item]) == Listing(items) + [Entry(|items| + 1, item)]
  {
  }

  /** The lines of every fetched message, in order (the `flat_map` over the fetch result). */
  function AllLines(fetched: seq<string>): seq<string> {
    if fetched == [] then [] else Lines(fetched[0]) + AllLines(fetched[1..])
  }

  /**
   * The subject shown for fetched message `seqNo`: the first line starting
   * with "Subject:", without its first nine bytes. `fetch_message` panics when
   * there is no such line or it is shorter than nine bytes.
   */
  function SubjectOf(fetched: seq<string>, seqNo: nat): (r: Result<string, Failure>)
    ensures r.Err? ==> r.error == NoSubjectLine(seqNo) || r.error == ShortSubjectLine(seqNo)
  {
    var ls := AllLines(fetched);
    match FirstWithPrefix(ls, "Subject:")
    case None => Err(NoSubjectLine(seqNo))
    case Some(k) => if |ls[k]| < 9 then Err(ShortSubjectLine(seqNo)) else Ok(ls[k][9..])
  }

  /** The subject is cut from the first line that starts with "Subject:". */
  lemma SubjectFromFirstLine(fetched: seq<string>, seqNo: nat, k: nat)
    requires var ls := AllLines(fetched);
             && k < |ls| && StartsWith(ls[k], "Subject:")
             && forall j :: 0 <= j < k ==> !StartsWith(ls[j], "Subject:")
    ensures var line := AllLines(fetched)[k];
            SubjectOf(fetched, seqNo) == if |line| < 9 then Err(ShortSubjectLine(seqNo)) else Ok(line[9..])
  {
    FirstWithPrefixIsFirst(AllLines(fetched), "Subject:", k);
  }

  /** The subject is missing exactly when no line starts with "Subject:". */
  lemma SubjectMissing(fetched: seq<string>, seqNo: nat)
    ensures SubjectOf(fetched, seqNo) == Err(NoSubjectLine(seqNo))
            ==> forall k :: 0 <= k < |AllLines(fetched)| ==> !StartsWith(AllLines(fetched)[k], "Subject:")
    ensures (forall k :: 0 <= k < |AllLines(fetched)| ==> !StartsWith(AllLines(fetched)[k], "Subject:"))
            ==> SubjectOf(fetched, seqNo) == Err(NoSubjectLine(seqNo))
  {
    var ls := AllLines(fetched);
    forall k | 0 <= k < |ls| && StartsWith(ls[k], "Subject:")
      ensures FirstWithPrefix(ls, "Subject:").Some?
    {
      FirstWithPrefixIsFirst(ls, "Subject:", k);
    }
    var f := FirstWithPrefix(ls, "Subject:");
    if f.Some? {
      assert StartsWith(ls[f.value], "Subject:");
      assert SubjectOf(fetched, seqNo) != Err(NoSubjectLine(seqNo));
    }
  }

  /** A fetched message of one line has a subject exactly when that line starts with "Subject:". */
  lemma SubjectOfOneLine(line: string, seqNo: nat)
    requires line != [] && '\n' !in line
    ensures SubjectOf([line], seqNo)
            == if !StartsWith(line, "Subject:") then Err(NoSubjectLine(seqNo))
               else if |line| < 9 then Err(ShortSubjectLine(seqNo))
               else Ok(line[9..])
  {
    OneLine(line);
    assert AllLines([line]) == [line] + AllLines([]);
  }

  /**
   * The cut at byte nine assumes one space after the colon: whatever follows
   * "Subject:" loses its first character, and a bare "Subject:" line is too short.
   */
  lemma SubjectCut(rest: string, seqNo: nat)
    requires '\n' !in rest
    ensures SubjectOf(["Subject:" + rest], seqNo)
            == if rest == [] then Err(ShortSubjectLine(seqNo)) else Ok(rest[1..])
  {
    var line := "Subject:" + rest;
    assert line[..8] == "Subject:";
    assert '\n' !in line by {
      assert forall k :: 0 <= k < |line| ==> line[k] == if k < 8 then "Subject:"[k] else rest[k - 8];
    }
    SubjectOfOneLine(line, seqNo);
    if rest != [] {
      assert line[9..] == rest[1..];
    }
  }

  /** How the subject listing of messages 1 .. n ended: the subjects shown, and the failure that stopped it, if any. */
  datatype Enumeration = Enumeration(subjects: seq<string>, failure: Option<Failure>)

  /** The loop of `fetch_message` over messages 1 .. n: one subject per message, stopping at the first failure. */
  function Enumerate(messages: seq<string>, n: nat): (e: Enumeration)
    requires n <= |messages|
    ensures |e.subjects| <= n
    ensures e.failure.None? ==> |e.subjects| == n
    ensures e.failure.Some? ==> e.failure.value == NoSubjectLine(|e.subjects| + 1)
                                || e.failure.value == ShortSubjectLine(|e.subjects| + 1)
  {
    if n == 0 then Enumeration([], None)
    else
      var e := Enumerate(messages, n - 1);
      if e.failure.Some? then e
      else
        match SubjectOf([messages[n - 1]], n)
        case Err(f) => Enumeration(e.subjects, Some(f))
        case Ok(s) => Enumeration(e.subjects + [s], None)
  }

  /** One more message either adds its subject or stops the listing with its failure. */
  lemma EnumerateNext(messages: seq<string>, i: nat, subjects: seq<string>)
    requires 1 <= i <= |messages| && Enumerate(messages, i - 1) == Enumeration(subjects, None)
    ensures var s := SubjectOf([messages[i - 1]], i);
            Enumerate(messages, i) == if s.Err? then Enumeration(subjects, Some(s.error))
                                      else Enumeration(subjects + [s.value], None)
  {
  }

  /** Once the listing has failed, later messages change nothing. */
  lemma {:induction false} EnumerateStops(messages: seq<string>, n: nat, m: nat)
    requires n <= m <= |messages| && Enumerate(messages, n).failure.Some?
    ensures Enumerate(messages, m) == Enumerate(messages, n)
    decreases m
  {
    if n < m {
      EnumerateStops(messages, n, m - 1);
    }
  }

  /** The listing shows message k + 1's subject in position k. */
  lemma {:induction false} EnumerateSubjects(messages: seq<string>, n: nat)
    requires n <= |messages|
    ensures var e := Enumerate(messages, n);
            forall k :: 0 <= k < |e.subjects| ==> SubjectOf([messages[k]], k + 1) == Ok(e.subjects[k])
    decreases n
  {
    if n > 0 {
      EnumerateSubjects(messages, n - 1);
      var e := Enumerate(messages, n - 1);
      if e.failure.None? {
        EnumerateNext(messages, n, e.subjects);
        var s := SubjectOf([messages[n - 1]], n);
        if s.Ok? {
          var subjects := e.subjects + [s.value];
          forall k | 0 <= k < |subjects|
            ensures SubjectOf([messages[k]], k + 1) == Ok(subjects[k])
          {
            if k < |e.subjects| {
              assert subjects[k] == e.subjects[k];
            }
          }
        }
      }
    }
  }

  /** When the listing fails, it fails on the message right after the last subject shown. */
  lemma {:induction false} EnumerateFailure(messages: seq<string>, n: nat)
    requires n <= |messages|
    ensures var e := Enumerate(messages, n);
            e.failure.Some? ==> SubjectOf([messages[|e.subjects|]], |e.subjects| + 1) == Err(e.failure.value)
    decreases n
  {
    if n > 0 {
      EnumerateFailure(messages, n - 1);
      var e := Enumerate(messages, n - 1);
      if e.failure.None? {
        EnumerateNext(messages, n, e.subjects);
      }
    }
  }


  /** What `fetch_message` does, start to end: its outcome, the subjects it lists and the sequence numbers it fetches. */
  datatype Browse = Browse(outcome: Scan<Result<Option<string>, Failure>>, subjects: seq<string>, fetches: seq<nat>)

  /** A server whose counts fit the `usize` arithmetic of `fetch_message`. */
  predicate Countable(names: seq<string>, store: map<string, seq<string>>) {
    |names| <= USIZE_MAX && forall m :: m in store ==> |store[m]| < USIZE_MAX
  }

  /** A choice read with `read_selection`: a line in the range, or the end of the input. */
  function Choice(input: seq<string>, pos: nat, range: RangeUsize): (r: Scan<nat>)
    ensures r.Got? ==> range.lo <= r.value <= range.hi && pos < r.next
  {
    FirstValidMeaning(input, pos, SelectionRule(range));
    FirstValid(input, pos, SelectionRule(range))
  }

  /**
   * `read_selection` of a menu label from 1 to `count`, naming `subject` in
   * the error line; its error lines go to standard error and are dropped here.
   */
  method ReadLabel(input: seq<string>, pos: nat, prompts: Prompts, subject: string, count: Usize)
    returns (r: Scan<nat>)
    ensures r == Choice(input, pos, RangeUsize(1, count))
  {
    var errors;
    r, errors := ReadSelection(input, pos, prompts.invalidLiteral, subject, prompts.shouldBeOneOfBelowLiteral,
                                 RangeUsize(1, count));
  }

  /**
   * Choose a listed mailbox by its label and select it; what follows is
   * `Browsing` of its messages.
   */
  function BrowseSpec(names: seq<string>, store: map<string, seq<string>>, input: seq<string>, pos: nat): (b: Browse)
    requires Countable(names, store)
    ensures b.outcome.Got? && b.outcome.value.Ok? && b.outcome.value.value.Some? ==>
              exists name :: name in Usable(names) && name in store && b.outcome.value.value.value in store[name]
  {
    var usable := Usable(names);
    match Choice(input, pos, RangeUsize(1, |usable|))
    case Exhausted => Browse(Exhausted, [], [])
    case Got(k, p1) =>
      var name := usable[k - 1];
      if name !in store then Browse(Got(Err(NoSuchMailbox(name)), p1), [], [])
      else Browsing(store[name], input, p1)
  }

  /**
   * Fetch and list messages 1, 2, ... until a fetch comes back empty (an empty
   * mailbox ends with nothing), then choose a message by its label and return
   * its text.
   */
  function Browsing(messages: seq<string>, input: seq<string>, pos: nat): (b: Browse)
    requires |messages| < USIZE_MAX
    ensures b.outcome.Got? && b.outcome.value.Ok? && b.outcome.value.value.Some? ==>
              b.outcome.value.value.value in messages
  {
    if messages == [] then Browse(Got(Ok(None), pos), [], [1])
    else
      var e := Enumerate(messages, |messages|);
      var fetched := Values(1, |e.subjects| + 1);
      if e.failure.Some? then Browse(Got(Err(e.failure.value), pos), e.subjects, fetched)
      else
        match Choice(input, pos, RangeUsize(1, |messages|))
        case Exhausted => Browse(Exhausted, e.subjects, fetched)
        case Got(c, next) => Browse(Got(Ok(Some(messages[c - 1])), next), e.subjects, fetched + [c])
  }

  /** An empty mailbox: the first fetch comes back empty, nothing is listed or read, and nothing is returned. */
  lemma BrowsingEmpty(input: seq<string>, pos: nat)
    ensures Browsing([], input, pos) == Browse(Got(Ok(None), pos), [], [1])
  {
  }

  /**
   * A mailbox whose subjects all list: messages 1 .. n are fetched, then a
   * message is chosen from the range [1, n], n being the number of subjects
   * listed, and fetched once more.
   */
  lemma BrowsingRange(messages: seq<string>, input: seq<string>, pos: nat)
    requires 0 < |messages| < USIZE_MAX
    requires Enumerate(messages, |messages|).failure.None?
    ensures var e := Enumerate(messages, |messages|);
            var b := Browsing(messages, input, pos);
            && |e.subjects| == |messages| && b.subjects == e.subjects
            && match Choice(input, pos, RangeUsize(1, |e.subjects|))
               case Exhausted => b.outcome == Exhausted && b.fetches == Values(1, |e.subjects| + 1)
               case Got(c, next) =>
                 && 1 <= c <= |e.subjects|
                 && b.outcome == Got(Ok(Some(messages[c - 1])), next)
                 && b.fetches == Values(1, |e.subjects| + 1) + [c]
  {
  }

  /** A subject that cannot be cut ends browsing with its failure, before any choice is read. */
  lemma BrowsingFailure(messages: seq<string>, input: seq<string>, pos: nat)
    requires 0 < |messages| < USIZE_MAX
    requires Enumerate(messages, |messages|).failure.Some?
    ensures var e := Enumerate(messages, |messages|);
            var b := Browsing(messages, input, pos);
            && b.outcome == Got(Err(e.failure.value), pos)
            && b.subjects == e.subjects
            && b.fetches == Values(1, |e.subjects| + 1)
  {
  }

  lemma ValuesSnoc(lo: nat, hi: nat)
    requires lo <= hi + 1
    ensures Values(lo, hi) + [hi + 1] == Values(lo, hi + 1)
  {
  }

  /** When every mailbox name has an '&', the menu is empty, its range is [1, 0], and browsing never returns. */
  lemma NoMailboxesStall(names: seq<string>, store: map<string, seq<string>>, input: seq<string>, pos: nat)
    requires Countable(names, store)
    requires forall k :: 0 <= k < |names| ==> '&' in names[k]
    ensures Usable(names) == []
    ensures BrowseSpec(names, store, input, pos).outcome == Exhausted
  {
    if Usable(names) != [] {
      var u := Usable(names)[0];
      FilterMembers(names, Listable, u);
    }
    EmptyRangeNeverSelects(input, pos, RangeUsize(1, 0));
  }

  /** Typing the label of a listed mailbox chooses exactly that mailbox. */
  lemma MenuSelects(names: seq<string>, input: seq<string>, pos: nat, i: nat)
    requires |names| <= USIZE_MAX && i < |Usable(names)|
    requires pos < |input| && Trim(input[pos]) == NatToString(i + 1)
    ensures Listing(Usable(names))[i] == Entry(i + 1, Usable(names)[i])
    ensures FirstValid(input, pos, SelectionRule(RangeUsize(1, |Usable(names)|))) == Got(i + 1, pos + 1)
  {
    SelectionTakesNumeral(input, pos, RangeUsize(1, |Usable(names)|), i + 1);
  }

  /**
   * The mailbox `fetch_message` leaves selected once a menu item is chosen:
   * that item when the server has it, and none when its SELECT fails.
   */
  function ChosenMailbox(names: seq<string>, store: map<string, seq<string>>, input: seq<string>, pos: nat)
    : (r: Option<string>)
    requires Countable(names, store)
    ensures r.Some? ==> r.value in Usable(names) && r.value in store
  {
    var usable := Usable(names);
    match Choice(input, pos, RangeUsize(1, |usable|))
    case Exhausted => None
    case Got(k, _) => if usable[k - 1] in store then Some(usable[k - 1]) else None
  }

  /** Typing the label of a listed mailbox the server has selects exactly that mailbox. */
  lemma MenuSelectsMailbox(names: seq<string>, store: map<string, seq<string>>, input: seq<string>, pos: nat, i: nat)
    requires Countable(names, store) && i < |Usable(names)| && Usable(names)[i] in store
    requires pos < |input| && Trim(input[pos]) == NatToString(i + 1)
    ensures ChosenMailbox(names, store, input, pos) == Some(Usable(names)[i])
  {
    MenuSelects(names, input, pos, i);
  }

  /** A returned message is one of the messages of a listed mailbox. */
  lemma BrowseReturnsStoredMessage(names: seq<string>, store: map<string, seq<string>>, input: seq<string>,
                                   pos: nat, text: string)
    requires Countable(names, store)
    ensures var o := BrowseSpec(names, store, input, pos).outcome;
            o.Got? && o.value == Ok(Some(text)) ==>
              exists name :: name in names && Listable(name) && name in store && text in store[name]
  {
    var o := BrowseSpec(names, store, input, pos).outcome;
    if o.Got? && o.value == Ok(Some(text)) {
      var name :| name in Usable(names) && name in store && text in store[name];
      FilterMembers(names, Listable, name);
    }
  }

  // ---------------------------------------------------------------- the user

  class User {
    var smtpDomain: string
    var imapDomain: string
    var emailAddr: string
    var password: string

    function Snapshot(): Account
      reads this
    {
      Account(smtpDomain, imapDomain, emailAddr, password)
    }

    ghost predicate Valid()
      reads this
    {
      WellFormed(Snapshot())
    }

    constructor (a: Account)
      ensures Snapshot() == a
    {
      smtpDomain := a.smtpDomain;
      imapDomain := a.imapDomain;
      emailAddr := a.emailAddr;
      password := a.password;
    }

    /** `*self = ...`: the whole record is replaced. */
    method Replace(a: Account)
      modifies this
      ensures Snapshot() == a
    {
      smtpDomain, imapDomain, emailAddr, password := a.smtpDomain, a.imapDomain, a.emailAddr, a.password;
    }

    /**
     * `login_smtp` / `login_imap`: try the current credentials; on a refusal
     * replace the whole record by a newly built one and try again.
     */
    method Login(p: Protocol, input: seq<string>, pos: nat, isAddress: string -> bool, promptInvalid: string,
                 connect: (nat, string, string, string) -> bool)
      returns (r: Scan<Connected>)
      modifies this
      requires Valid()
      ensures Valid()
      ensures r == LoginSpec(old(Snapshot()), p, 0, input, pos, isAddress, connect)
      ensures r.Got? ==> Snapshot() == r.value.account
    {
      var attempt := 0;
      var n := pos;
      var current := Snapshot();
      while !connect(attempt, Host(current, p), current.emailAddr, current.password)
        invariant current == Snapshot() && WellFormed(current)
        invariant LoginSpec(current, p, attempt, input, n, isAddress, connect)
                  == LoginSpec(old(Snapshot()), p, 0, input, pos, isAddress, connect)
        decreases if n <= |input| then |input| + 1 - n else 0
      {
        var rebuilt := Build(input, n, isAddress, promptInvalid);
        if rebuilt.Exhausted? {
          return Exhausted;
        }
        LoginRetry(current, p, attempt, input, n, isAddress, connect, rebuilt.value, rebuilt.next);
        current := rebuilt.value;
        Replace(current);
        attempt := attempt + 1;
        n := rebuilt.next;
      }
      r := Got(Connected(current, attempt), n);
    }

    /** The reading half of `compose_and_send`: recipient, subject and body. */
    static method Draft(from: string, input: seq<string>, pos: nat, isAddress: string -> bool, prompts: Prompts)
      returns (r: Scan<Mail>)
      ensures r == DraftSpec(from, input, pos, isAddress)
    {
      var to, _ := ReadEmail(input, pos, isAddress, prompts.emailAddrInvalid);
      if to.Exhausted? {
        return Exhausted;
      }
      var subject := ReadInput(input, to.next);
      var body, next := ReadBody(input, to.next + 1);
      r := Got(Mail(from, to.value, subject, body), next);
    }

    /**
     * `compose_and_send`: read the recipient, subject and body, ask for
     * reconfirmation, and hand the message to the relay once if and only if
     * the answer is yes.
     */
    method ComposeAndSend(smtp: SmtpTransport, input: seq<string>, pos: nat, isAddress: string -> bool,
                          prompts: Prompts)
      returns (r: Scan<Result<Option<string>, Failure>>)
      modifies smtp
      ensures match ComposePlan(emailAddr, input, pos, isAddress)
              case Stalled => r.Exhausted? && smtp.sent == old(smtp.sent)
              case Cancelled(next) => r == Got(Ok(None), next) && smtp.sent == old(smtp.sent)
              case Confirmed(mail, next) =>
                && smtp.sent == old(smtp.sent) + [mail]
                && r == Got(if smtp.accepts(|old(smtp.sent)|, mail) then Ok(Some(mail.to)) else Err(Refused), next)
    {
      var draft := Draft(emailAddr, input, pos, isAddress, prompts);
      if draft.Exhausted? {
        return Exhausted;
      }
      var mail := draft.value;
      var yes, _ := ReadReconfirmation(input, draft.next, prompts, Confirmation.YesOrNo());
      if yes.Exhausted? {
        return Exhausted;
      }
      if !yes.value {
        return Got(Ok(None), yes.next);
      }
      var sent := smtp.Send(mail);
      r := Got(if sent.Ok? then Ok(Some(mail.to)) else Err(sent.error), yes.next);
    }

    /**
     * `fetch_message`: choose a mailbox, then browse it. The printed menus are
     * returned in `shown`: the mailbox menu, then one line per listed subject.
     */
    method FetchMessage(session: ImapSession, input: seq<string>, pos: nat, prompts: Prompts)
      returns (r: Scan<Result<Option<string>, Failure>>, shown: seq<string>)
      modifies session
      requires session.Valid() && Countable(session.names, session.store)
      ensures session.Valid()
      ensures session.selected
              == if Choice(input, pos, RangeUsize(1, |Usable(session.names)|)).Exhausted? then old(session.selected)
                 else ChosenMailbox(session.names, session.store, input, pos)
      ensures var b := BrowseSpec(session.names, session.store, input, pos);
              && r == b.outcome
              && session.fetches == old(session.fetches) + b.fetches
              && shown == Listing(Usable(session.names)) + Listing(b.subjects)
    {
      var usable := Usable(session.names);
      var sel := ReadLabel(input, pos, prompts, prompts.fetchMailboxLiteral, |usable|);
      if sel.Exhausted? {
        return Exhausted, Listing(usable);
      }
      var name := usable[sel.value - 1];
      var selected := session.Select(name);
      if selected.Err? {
        return Got(Err(selected.error), sel.next), Listing(usable);
      }
      var lines;
      r, lines := BrowseSelected(session, input, sel.next, prompts);
      shown := Listing(usable) + lines;
    }

    /**
     * The second half of `fetch_message`, on the selected mailbox: list its
     * subjects (returned in `lines` as printed), then read the choice and
     * fetch the chosen message.
     */
    static method BrowseSelected(session: ImapSession, input: seq<string>, pos: nat, prompts: Prompts)
      returns (r: Scan<Result<Option<string>, Failure>>, lines: seq<string>)
      modifies session
      requires session.Valid() && session.selected.Some?
      requires |session.store[session.selected.value]| < USIZE_MAX
      ensures session.Valid() && session.selected == old(session.selected)
      ensures var b := Browsing(session.store[session.selected.value], input, pos);
              && r == b.outcome
              && session.fetches == old(session.fetches) + b.fetches
              && lines == Listing(b.subjects)
    {
      ghost var messages := session.store[session.selected.value];
      var subjects, failure;
      subjects, lines, failure := ListSubjects(session);
      if failure.Some? {
        return Got(Err(failure.value), pos), lines;
      }
      if subjects == [] {
        return Got(Ok(None), pos), lines;
      }
      var choice := ReadLabel(input, pos, prompts, prompts.fetchMessageLiteral, |subjects|);
      if choice.Exhausted? {
        return Exhausted, lines;
      }
      var message := session.Fetch(choice.value);
      r := Got(Ok(Some(message[0])), choice.next);
    }

    /**
     * The listing loop of `fetch_message`: fetch messages 1, 2, ... of the
     * selected mailbox and print each subject, until a fetch comes back empty
     * or a subject cannot be cut.
     */
    static method ListSubjects(session: ImapSession)
      returns (subjects: seq<string>, lines: seq<string>, failure: Option<Failure>)
      modifies session
      requires session.Valid() && session.selected.Some?
      ensures session.Valid() && session.selected == old(session.selected)
      ensures var messages := session.store[session.selected.value];
              && Enumerate(messages, |messages|) == Enumeration(subjects, failure)
              && session.fetches == old(session.fetches) + Values(1, |subjects| + 1)
              && lines == Listing(subjects)
    {
      ghost var name := session.selected.value;
      ghost var messages := session.store[name];
      subjects, lines, failure := [], [], None;
      var i := 1;
      while true
        invariant session.selected == Some(name)
        invariant 1 <= i <= |messages| + 1 && |subjects| == i - 1
        invariant Enumerate(messages, i - 1) == Enumeration(subjects, None)
        invariant session.fetches == old(session.fetches) + Values(1, i - 1)
        invariant lines == Listing(subjects)
        decreases |messages| + 1 - i
      {
        var message := session.Fetch(i);
        ValuesSnoc(1, i - 1);
        if message == [] {
          return;
        }
        var subject := SubjectOf(message, i);
        EnumerateNext(messages, i, subjects);
        if subject.Err? {
          EnumerateStops(messages, i, |messages|);
          failure := Some(subject.error);
          return;
        }
        ListingSnoc(subjects, subject.value);
        lines := lines + [Entry(i, subject.value)];
        subjects := subjects + [subject.value];
        i := i + 1;
      }
    }
  }
}
