# A console mail client, modelled in Dafny

The program is a small terminal mail client.
- **Login.** The user types a mail address and a password. The client derives the server names `smtp.<domain>` and `imap.<domain>` from the part of the address after the last `@`, and logs in. On a refused login it reports the error and asks for the credentials again, until a server accepts them. The report calls `e.source().unwrap()`, so a refusal whose error has no underlying source makes the program panic instead of retrying.
- **Sending.** The user types a recipient, a subject and a body, which ends at two empty lines in a row. The client asks for reconfirmation ("yes" or "no", in any letter case) and hands the message to the SMTP relay only when the answer is yes.
- **Browsing.** The client lists the mailboxes whose names contain no `&`, lets the user choose one by its 1-based label, and fetches messages 1, 2, … to list their subjects until a fetch comes back empty. The user then chooses a message, and the client shows its body.

The model follows the source file by file: one Dafny module per file, plus three small modules they share.

- **`Wrappers`** defines `Option` and `Result`.
- **`Seqs`** models the order-preserving `filter` pipelines.
- **`Text`** models the string operations of the Rust standard library that the core relies on:
  - `trim` and `trim_end`, on ASCII whitespace;
  - `to_lowercase`, on ASCII letters;
  - `starts_with` and `lines`;
  - `parse::<usize>`, which accepts an optional `+` and leading zeros;
  - `to_string` and `join(", ")`.
- **`Types`** models `types.rs`. `RangeUsize` and `Confirmation` are datatypes, and `RangeUsize::new` is the datatype's own constructor. Their `valid_values` listings are functions, with round-trip lemmas: parsing a listing gives back the values it lists.
- **`Read`** models `read.rs`. Console input is a sequence of lines and a read position. `read_email`, `read_selection` and `read_reconfirmation` loop until a line is acceptable. Their meaning is `FirstValid`: the first acceptable line from the read position on, or `Exhausted` when the input ends first. In the source, that case is a loop that never returns. `read_body` does return at end of input: each further read gives an empty line, so two of them close the body. The methods also return the error lines they print, one per rejected line.
- **`Clients`** holds the servers as the core sees them.
  - An SMTP transport records every message handed to it and answers through an oracle.
  - An IMAP session serves a fixed store of mailboxes, with each message as raw RFC 822 text. It records every sequence number fetched.
- **`Users`** models `user.rs`:
  - the user record as a `class` whose login loop replaces all four fields when a login is refused;
  - the confirmation gate of `compose_and_send`;
  - `fetch_message` as a method over the IMAP session.

  Each of them is proved against a specification function (`LoginSpec`, `ComposePlan`, `BrowseSpec`), and lemmas about those functions state what the source promises.

The source's panics on a fetched message become error values:
- a message with no `Subject:` line gives `NoSubjectLine`;
- a `Subject:` line shorter than nine bytes, which `s[9..]` cannot cut, gives `ShortSubjectLine`.

When every mailbox name contains an `&`, the menu is empty and the selection range is `[1, 0]`. No typed line can satisfy that range, so the call never returns; the model proves it is `Exhausted`.

## Model

| member | source | states |
|---|---|---|
| Seqs.FilterMembers | src/user.rs:185-190 | an element survives a filter exactly when it was in the list and the predicate accepts it |
| Seqs.FilterAppend | src/user.rs:185-190 | filtering distributes over concatenation, so the kept mailbox names stay in their LIST order |
| Text.TrimStrips | src/read.rs:16 | `trim` removes only whitespace, from both ends, and leaves a string with no whitespace at either end |
| Text.TrimEmptyIff | src/read.rs:84 | a trimmed line is empty exactly when every character of it is whitespace |
| Text.TrimIdempotent | src/read.rs:22 | trimming an already trimmed line (the second `trim` of `read_email`) changes nothing |
| Text.TrimKeepsTrimmed | src/read.rs:16 | a string with no surrounding whitespace is its own trim |
| Text.TrimPadded | src/read.rs:16 | a non-empty word typed between spaces is read back as the word |
| Text.TrimEndDropsSpace | src/read.rs:92 | `trim_end` of a text that ends in a non-space, followed by any whitespace, gives back exactly that text |
| Text.TrimWithLineFeed | src/read.rs:82-84 | a typed line with its line feed appended is blank exactly when the line is empty, which is the empty-line test of the body loop |
| Text.LowerIsYes | src/read.rs:57-59 | a line lowercases to "yes" exactly when it is "yes" in one of its letter cases |
| Text.LowerIsNo | src/read.rs:57-58 | a line lowercases to "no" exactly when it is "no" in one of its letter cases |
| Text.AfterLastOf | src/user.rs:24 | the text after the last '@' of `local@d` is `d` whenever `d` has no '@' |
| Text.Lines | src/read.rs:99 | `lines` of a text is empty exactly when the text is empty |
| Text.LinesHaveNoBreaks | src/read.rs:99 | no line produced by `lines` contains a line feed |
| Text.OneLine | src/user.rs:229 | text with no line feed is a single line |
| Text.FirstWithPrefixIsFirst | src/user.rs:232 | the line found has the prefix, and no earlier line has it |
| Text.NatToString | src/types.rs:24 | `to_string` of a number is a non-empty string of digits with no leading zero |
| Text.ParseUsize | src/read.rs:38 | a parsed number fits in a 64-bit `usize` |
| Text.NumeralRoundTrip | src/read.rs:38 | parsing the numeral of any `usize` gives the number back |
| Text.ListingRoundTrip | src/types.rs:26 | splitting a `", "`-joined listing of non-empty items without commas gives the items back |
| Types.Values | src/types.rs:23 | the inclusive range `lo..=hi` lists `lo`, `lo + 1`, …, `hi`, and is empty when `lo > hi` |
| Types.NumeralsParse | src/types.rs:24-25 | parsing the rendered numerals gives back the numbers |
| Types.RangeListingRoundTrip | src/types.rs:20-28 | the bracketed listing of a range parses back to exactly the range's values, in order |
| Types.EmptyRangeListing | src/types.rs:20-28 | an empty range is listed as "[]" |
| Types.RangeListingExample | src/types.rs:20-28 | the range 1..=3 is listed as "[1, 2, 3]" |
| Types.ConfirmationListingRoundTrip | src/types.rs:47-49 | a confirmation's listing parses back to exactly its two words, confirm first |
| Types.YesOrNoListing | src/types.rs:47-49 | the yes/no confirmation is listed as "[yes, no]" |
| Read.FirstValid | src/read.rs:21-26 | a re-prompting read returns a position after the accepted line and within the input |
| Read.FirstValidMeaning | src/read.rs:37-50 | the accepted line is the first acceptable line and its value is the parse of that line; when the input ends first, no line was acceptable |
| Read.RejectedLine | src/read.rs:24 | an unacceptable line is skipped and reading continues with the next one |
| Read.RejectedLinesIgnored | src/read.rs:40-48 | any run of unacceptable lines is skipped as a whole |
| Read.EmailValue | src/read.rs:22-23 | a line is accepted exactly when its trim contains '@' and passes the address oracle, and the address is that trimmed line |
| Read.EmailTakesAddress | src/read.rs:21-23 | a typed address, whatever whitespace surrounds it, is returned at once and consumes one line |
| Read.ReadEmail | src/read.rs:20-27 | returns the first line that is an address, or `Exhausted`, and prints the invalid-address notice once per rejected line |
| Read.SelectionValue | src/read.rs:38-39 | an accepted selection lies in the range |
| Read.ReadSelection | src/read.rs:30-51 | returns the first line whose number lies in the range, and prints the notice with the range's listing once per rejected line |
| Read.SelectionTakesNumeral | src/read.rs:38-39 | typing the numeral of any number of the range selects that number |
| Read.EmptyRangeNeverSelects | src/read.rs:37-50 | with `lo > hi` no line is ever accepted, so the read never returns |
| Read.ReadReconfirmation | src/read.rs:54-72 | returns true exactly when the accepted line lowercases to "yes", and prints the notice with "[yes, no]" once per rejected line |
| Read.DecisionMatchesListing | src/read.rs:57-59 | a line is accepted exactly when its lowercase form is one of the two listed words, and it confirms exactly when that word is the confirm word |
| Read.DecisionSpellings | src/read.rs:57-59 | "yes" confirms in all eight letter cases, "no" cancels in all four, and nothing else is accepted |
| Read.DecisionExamples | src/read.rs:57-59 | "YES" and "Yes" confirm, "no" cancels, "y" and "yes please" are rejected |
| Read.ReadInputTrimmed | src/read.rs:16 | every typed line comes back with no surrounding whitespace |
| Read.TrimmedLines | src/read.rs:81-90 | one line is consumed per body line read |
| Read.TrimmedLinesAt | src/read.rs:82 | the k-th body line is the trimmed input line at that position |
| Read.TypedIsJoin | src/read.rs:82-83 | the accumulated body is the typed lines, each followed by a line feed |
| Read.ClosesBodyFirst | src/read.rs:81 | the body loop stops at the first pair of empty lines, never at a later one |
| Read.TypedClosing | src/read.rs:81-90 | the two closing empty lines add just two line feeds to the accumulated text |
| Read.BodyText | src/read.rs:92 | after `trim_end`, the body is the typed lines before the closing pair, joined with line feeds |
| Read.BodyEnd | src/read.rs:80-90 | the body consumes at least two lines (the closing empty pair) |
| Read.BodyEndCloses | src/read.rs:81-88 | the empty-line counter finds the position right after the first empty pair |
| Read.BodyEndClosesBody | src/read.rs:81-90 | the lines the body loop consumes end with its first pair of empty lines |
| Read.BodyEndUnique | src/read.rs:75-93 | wherever the first empty pair closes the typed lines, the body ends there and is the lines before the pair, joined with line feeds |
| Read.ReadBody | src/read.rs:75-93 | consumes exactly the lines up to and including the first pair of empty lines, and returns the earlier lines joined with line feeds |
| Read.BodyExample | src/read.rs:75-93 | the lines "a", "", "b", "", "" give the body "a\n\nb" (one empty line does not end the body) |
| Read.PrintBody | src/read.rs:96-110 | prints the start rule, then each shown line of the message indented, then the end rule |
| Read.BodyViewMembers | src/read.rs:99-107 | a line is shown exactly when it comes at or after the first "From: " line and does not start with "Content" or "To" |
| Clients.SmtpTransport.constructor | src/user.rs:94-109 | a new relay connection has sent nothing |
| Clients.SmtpTransport.Send | src/user.rs:164-167 | the message is handed to the relay once, and the result is the server's answer to it |
| Clients.ImapSession.constructor | src/user.rs:117-125 | a new session has no mailbox selected and has fetched nothing |
| Clients.ImapSession.Select | src/user.rs:204 | selecting a stored mailbox makes it the selected one; any other name is an error and leaves no mailbox selected, as section 6.3.1 of RFC 3501 prescribes; the fetch log is unchanged |
| Clients.ImapSession.Fetch | src/user.rs:209 | returns what FETCH gives for the selected mailbox and records the sequence number |
| Users.Domain | src/user.rs:24 | the domain has no '@' and is what follows the last '@' of the address |
| Users.DomainAfterLastAt | src/user.rs:21-32 | the built record of `local@d` names `smtp.d` and `imap.d` |
| Users.BuildSpec | src/user.rs:21-32 | a built record comes from an accepted address and is well formed; it consumes the address line and the password line |
| Users.Build | src/user.rs:21-32 | `User::build` reads an address, then the next line as the password, as `BuildSpec` states |
| Users.BuildSkipsNonAddress | src/user.rs:22-30 | a line that is not an address is skipped, and the password is the following line without its surrounding spaces |
| Users.LoginSpec | src/user.rs:39-59 | a login that goes through was accepted by the server for the credentials it returns, at or after the first attempt; it keeps the record well formed |
| Users.LoginRetry | src/user.rs:47-56 | a refused attempt continues with the rebuilt record at the next attempt |
| Users.LoginRetriesUseInput | src/user.rs:52-56 | each retry consumes at least the two lines it rebuilds the record from |
| Users.LoginRefusedForever | src/user.rs:40-58 | a server that refuses every attempt is never logged in to: the loop does not return |
| Users.User.constructor | src/user.rs:12-17 | a user holds exactly the four fields of the record it is built from |
| Users.User.Replace | src/user.rs:55 | `*self = ...` replaces all four fields at once |
| Users.User.Login | src/user.rs:39-86 | `login_smtp`/`login_imap` end as `LoginSpec` states, keep the record well formed, and leave in `self` the credentials that were accepted |
| Users.DraftSpec | src/user.rs:144-153 | the drafted message is from the user and consumes at least four lines: the recipient, the subject and the two closing empty lines |
| Users.User.Draft | src/user.rs:144-153 | reads recipient, subject and body as `DraftSpec` states |
| Users.ComposePlan | src/user.rs:135-160 | only a confirmed plan carries a message, and it is from the user; a decided plan consumed at least four lines |
| Users.ComposeConfirmed | src/user.rs:144-167 | a message with a one-line body, confirmed with "yes" in any letter case, is sent with exactly the typed recipient, subject and body |
| Users.ComposeCancelled | src/user.rs:158-159 | with a one-line body, an answer other than yes or no is asked again, and "no" cancels without sending |
| Users.ComposeUnanswered | src/user.rs:158-160 | without an answer after the body, nothing is sent and the call does not return |
| Users.User.ComposeAndSend | src/user.rs:135-168 | hands the drafted message to the relay once exactly when it was confirmed, and otherwise sends nothing; it returns the recipient, or the relay's refusal |
| Users.Usable | src/user.rs:185-190 | the mailbox menu has no more entries than LIST returned |
| Users.ListingSnoc | src/user.rs:235 | printing one more subject appends its labelled line |
| Users.SubjectOf | src/user.rs:224-234 | a failed subject is reported as a missing or a short "Subject:" line of that message |
| Users.SubjectFromFirstLine | src/user.rs:229-233 | the subject is the first "Subject:" line with its first nine bytes removed |
| Users.SubjectMissing | src/user.rs:232-234 | the subject is missing exactly when no line starts with "Subject:" |
| Users.SubjectOfOneLine | src/user.rs:224-234 | a one-line message has a subject exactly when its line starts with "Subject:" and is long enough to cut |
| Users.SubjectCut | src/user.rs:233 | the cut `s[9..]` drops the first character after "Subject:" (meant to be its space), and a bare "Subject:" line is too short to cut |
| Users.Enumerate | src/user.rs:207-237 | the listing has one subject per message until the first failure, which is on the message after the last subject listed |
| Users.EnumerateNext | src/user.rs:209-236 | one more message either adds its subject or stops the listing with its failure |
| Users.EnumerateStops | src/user.rs:224-234 | once the listing has failed, later messages change nothing |
| Users.EnumerateSubjects | src/user.rs:224-235 | position k of the listing is the subject of message k + 1 |
| Users.EnumerateFailure | src/user.rs:224-234 | a failed listing failed on the message right after the last subject listed |
| Users.Choice | src/user.rs:196-203 | a chosen label lies in the menu's range and consumes a line |
| Users.ReadLabel | src/user.rs:196-203 | reads a menu choice with `read_selection` over the range 1 to the menu's size |
| Users.BrowseSpec | src/user.rs:178-262 | a message returned by `fetch_message` is stored in a mailbox that the menu offered |
| Users.Browsing | src/user.rs:207-251 | a message returned from the selected mailbox is one of its messages |
| Users.BrowsingEmpty | src/user.rs:209-216 | in an empty mailbox the first fetch comes back empty: nothing is listed or read, and nothing is returned |
| Users.BrowsingRange | src/user.rs:218-251 | when every subject lists, messages 1 to n are fetched, the choice is read from the range [1, n] with n the number of subjects listed, and the chosen message is fetched again and returned |
| Users.BrowsingFailure | src/user.rs:224-234 | a subject that cannot be cut ends browsing with that failure before any choice is read, after fetching messages 1 to the failing one |
| Users.NoMailboxesStall | src/user.rs:185-203 | when every mailbox name has an '&', the menu is empty and the selection never returns |
| Users.MenuSelects | src/user.rs:191-203 | typing the label shown next to a mailbox chooses exactly that mailbox |
| Users.ChosenMailbox | src/user.rs:196-204 | the mailbox left selected is a menu item that the server has |
| Users.MenuSelectsMailbox | src/user.rs:191-204 | typing the label of a listed mailbox that the server has selects exactly that mailbox |
| Users.BrowseReturnsStoredMessage | src/user.rs:178-262 | a returned message is in a mailbox whose name LIST reported and which has no '&' |
| Users.User.FetchMessage | src/user.rs:178-262 | ends as `BrowseSpec` states, fetches exactly the sequence numbers it names, and prints the mailbox menu and then the subject listing; once a mailbox is chosen it is left selected when SELECT succeeds and no mailbox is selected when SELECT fails; without a choice the old selection stays |
| Users.User.BrowseSelected | src/user.rs:207-261 | on the selected mailbox, ends as `Browsing` states, with its fetches and listing lines |
| Users.User.ListSubjects | src/user.rs:207-237 | fetches 1, 2, … until a fetch is empty or a subject fails; it lists exactly `Enumerate`'s subjects and records one fetch per listed subject plus the last |

## Left out

- `main.rs` and `lib.rs`, which hold the menu loop, the prompt texts and the wiring, are not part of this model. The prompt strings are a parameter (`Read.Prompts`).
- Console I/O is a sequence of input lines and a read position. For `read_email`, `read_selection` and `read_reconfirmation`, end of input is `Exhausted`, standing for a loop that never returns. `read_body` returns at end of input, because each read past the last line gives an empty line. Prompt printing and `flush` are omitted. Of the stderr and stdout lines, only the reader error lines (returned by the `Read` methods), the menus and the shown body are modelled.
- The network and TLS (`connect_smtp`, `connect_imap`, the IMAP `list`) are outside the model:
  - whether a login is accepted is the oracle `connect`;
  - whether a message is accepted is the oracle `SmtpTransport.accepts`;
  - the LIST reply is the session's fixed `names`;
  - the `?` error paths of `list` and `fetch` are not modelled.
- Mail address syntax (`Address::from_str` of the `lettre` crate) is the oracle `isAddress`. The model does require the '@' whose final occurrence `Address::domain` splits on.
- The `unwrap`/`expect` panics on I/O and library failures are not modelled. These include:
  - the `unwrap` of the IMAP connection;
  - the message builder's `unwrap`;
  - `body().expect`, `from_utf8().expect`, and `next().unwrap()` after a successful fetch;
  The two subject panics are modelled as `Failure` values.
- Strings are sequences of characters: UTF-8, byte offsets and character boundaries are not modelled. `s[9..]` is cut at the ninth character, matching the source on ASCII headers. `trim` and `to_lowercase` cover ASCII whitespace and letters only.
- `usize` is 64 bits. `Countable` requires that mailbox sizes and the menu fit it, so `i += 1` never overflows.
- `compose_and_send` and `fetch_message` are split into helper methods (`Draft`, `ReadLabel`, `BrowseSelected`, `ListSubjects`). Each helper covers a contiguous part of the source function.
- Users.LoginSpec: retries after every refusal. The login loops first evaluate `e.source().unwrap()` on the refusal's error (src/user.rs:52 and :79), so the program panics on a refusal whose error has no `source()`, rather than going on to `User::build` at src/user.rs:55 and :82. Whether an error has a source belongs to the SMTP and IMAP libraries, which are outside the model. A refused IMAP login (a `NO` reply) is likely such a case.
- Clients.ImapSession.Fetch: a sequence number past the last message gets an empty answer, and that empty answer is what ends the listing loop at src/user.rs:209-219. Section 9 of RFC 3501 says a server should instead answer such a number with BAD. The `?` at src/user.rs:209 would then make `fetch_message` return an error: for an empty mailbox instead of `Ok(None)`, and for any other mailbox before a message can be chosen. `Users.BrowsingEmpty`, `Users.BrowsingRange` and `Users.User.ListSubjects` hold only for servers that answer with an empty result.
- Read.FirstValid: its own contract states only the position bounds. What the accepted line is and why earlier lines were rejected is stated by `Read.FirstValidMeaning`.
- Read.SelectionValue: states one direction only (accepted ⇒ in range). The converse, for the canonical numeral, is `Read.SelectionTakesNumeral`.
- Text.ParseUsize: its own contract states only the `usize` bound. Its meaning on numerals is `Text.NumeralRoundTrip`, and its handling of `+` and leading zeros is stated only in its definition.
- Users.ReadLabel: does not return the error lines `read_selection` prints. Those are stated by `Read.ReadSelection`.
- Users.Build: does not return the error lines `read_email` prints. Those are stated by `Read.ReadEmail`.
- Users.User.Draft: does not return the error lines of the recipient's `read_email`. Those are stated by `Read.ReadEmail`.
- Users.User.ComposeAndSend: does not return the error lines `read_email` and `read_reconfirmation` print. Those are stated by `Read.ReadEmail` and `Read.ReadReconfirmation`.
- Users.ComposeConfirmed: covers a one-line body only. `ComposePlan` reads the body with `Read.BodyFrom`, which `Read.BodyEndUnique` characterizes for bodies of any number of lines.
- Users.Usable: its contract bounds the size only. Which names are kept, in order, is stated by `Seqs.FilterMembers` and `Seqs.FilterAppend`.
