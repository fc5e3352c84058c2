/**
 * The mail servers as the front end sees them. What happens on the wire is
 * outside the model: an SMTP relay records what it was asked to send and
 * answers through an oracle, and an IMAP session serves a fixed store of
 * mailboxes, recording what was fetched.
 */
module Clients {
  import opened Wrappers

  /** A plain-text message as the builder assembles it (the content type is always text/plain). */
  datatype Mail = Mail(from: string, to: string, subject: string, body: string)

  /** Why an operation of the front end gave up. */
  datatype Failure =
    | Refused                          // the relay did not accept the message
    | NoSuchMailbox(name: string)      // SELECT named a mailbox the server does not have
    | NoSubjectLine(seqNo: nat)        // the fetched message has no "Subject:" line (a panic in `fetch_message`)
    | ShortSubjectLine(seqNo: nat)     // its "Subject:" line is too short to cut at byte 9 (a panic in `fetch_message`)

  /**
   * An SMTP transport. `accepts(k, m)` is the server's answer to the k-th
   * send (counting from 0) when the message is `m`.
   */
  class SmtpTransport {
    var sent: seq<Mail>
    const accepts: (nat, Mail) -> bool

    constructor (accepts: (nat, Mail) -> bool)
      ensures sent == [] && this.accepts == accepts
    {
      this.accepts := accepts;
      sent := [];
    }

    /** `send`: hands the message to the relay once and reports the server's answer. */
    method Send(m: Mail) returns (r: Result<(), Failure>)
      modifies this
      ensures sent == old(sent) + [m]
      ensures r == if accepts(|old(sent)|, m) then Ok(()) else Err(Refused)
    {
      r := if accepts(|sent|, m) then Ok(()) else Err(Refused);
      sent := sent + [m];
    }
  }

  /**
   * FETCH of a single sequence number: the message with that number (they
   * count from 1), or nothing when there is no such message.
   */
  function FetchOne(messages: seq<string>, n: nat): seq<string>
  {
    if 1 <= n <= |messages| then [messages[n - 1]] else []
  }

  /**
   * An IMAP session. `names` is what LIST reports, `store` holds each
   * mailbox's messages as raw RFC 822 text in sequence-number order, and
   * `fetches` records every sequence number fetched, in order.
   */
  class ImapSession {
    const names: seq<string>
    const store: map<string, seq<string>>
    var selected: Option<string>
    var fetches: seq<nat>

    ghost predicate Valid()
      reads this
    {
      selected.Some? ==> selected.value in store
    }

    constructor (names: seq<string>, store: map<string, seq<string>>)
      ensures this.names == names && this.store == store
      ensures selected == None && fetches == []
      ensures Valid()
    {
      this.names := names;
      this.store := store;
      selected := None;
      fetches := [];
    }

    /**
     * `select`: opens a mailbox the server has. Any other name is an error, and
     * then no mailbox is selected: section 6.3.1 of RFC 3501 has the server
     * deselect the current mailbox before it tries the new one.
     */
    method Select(name: string) returns (r: Result<(), Failure>)
      modifies this
      requires Valid()
      ensures Valid()
      ensures fetches == old(fetches)
      ensures name in store ==> r == Ok(()) && selected == Some(name)
      ensures name !in store ==> r == Err(NoSuchMailbox(name)) && selected == None
    {
      if name in store {
        selected := Some(name);
        r := Ok(());
      } else {
        selected := None;
        r := Err(NoSuchMailbox(name));
      }
    }

    /** `fetch` of one sequence number of the selected mailbox. */
    method Fetch(n: nat) returns (r: seq<string>)
      modifies this
      requires Valid() && selected.Some?
      ensures selected == old(selected)
      ensures fetches == old(fetches) + [n]
      ensures r == FetchOne(store[selected.value], n)
    {
      r := FetchOne(store[selected.value], n);
      fetches := fetches + [n];
    }
  }
}
