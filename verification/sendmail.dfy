/**
 The `POST /sendmail` handler of the Bulk-Mail backend: it validates the
 request body, turns a comma-separated recipient string into a list, sends
 one email per recipient through the provider client, collects a result per
 recipient and answers with an envelope whose `success` flag is `true`
 whatever the individual outcomes.

 The provider client is the `Mailer` class: it records every mail handed to
 it and answers the n-th call with `answer(n)`, an oracle standing for the
 provider's behaviour.
 */
module SendMail {
  import opened JsStrings

  // ---------- Request, mails and replies ----------

  /** One field of the parsed JSON request body. `Null` stands both for a
      missing field and for JSON `null`; both are falsy. */
  datatype Value = Null | Str(s: string) | Arr(items: seq<string>)

  datatype Request = Request(msg: Value, emailList: Value)

  /** The argument of one provider call. */
  datatype Mail = Mail(to: string, from: string, subject: string, text: string)

  /** What one provider call does: it resolves, or it throws an error whose
      detail (the provider's response body, else the error message) is kept. */
  datatype SendResult = Accepted | Refused(detail: string)

  /** One entry of `results`: `{email, status: "sent"}` or
      `{email, status: "failed", error}`. */
  datatype RecipientResult = Sent(email: string) | Failed(email: string, error: string)
  {
    function Status(): string {
      if Sent? then "sent" else "failed"
    }
  }

  /** The JSON body of the reply. `Failure` is `{success, error}` and
      `Delivery` is `{success, results}`. */
  datatype Body =
    | Failure(success: bool, error: string)
    | Delivery(success: bool, results: seq<RecipientResult>)

  datatype Reply = Reply(status: int, body: Body)

  const Subject: string := "BulkMail Message"
  const MessageEmpty: string := "Message content is empty"
  const ListEmpty: string := "Email list is empty"
  /** The message of the TypeError thrown by `msg.trim()` when `msg` is an
      array, as Node.js words it; it reaches the client through the
      handler's outer `catch`. */
  const TrimNotAFunction: string := "msg.trim is not a function"

  // ---------- Validation and coercion ----------

  /** JavaScript truthiness of a field: `null`, a missing field and `""` are
      falsy; every array, even an empty one, is truthy. */
  predicate Truthy(v: Value)
    ensures v.Arr? ==> Truthy(v)
    ensures Truthy(v) <==> v != Null && v != Str("")
  {
    match v
    case Null => false
    case Str(s) => s != ""
    case Arr(_) => true
  }

  /** `.length` of a present field. */
  function Length(v: Value): nat
    requires !v.Null?
  {
    if v.Str? then |v.s| else |v.items|
  }

  /** The recipient list the loop walks: an array as it is, anything else
      split on "," with every piece trimmed. */
  function Coerce(emailList: Value): (r: seq<string>)
    requires !emailList.Null?
    ensures emailList.Arr? ==> r == emailList.items
    ensures emailList.Str? ==> |r| == multiset(emailList.s)[','] + 1
    ensures emailList.Str? ==> forall k :: 0 <= k < |r| ==> ',' !in r[k] && Trimmed(r[k])
    ensures emailList.Str? ==> forall k :: 0 <= k < |r| ==> r[k] == Trim(Split(emailList.s, ',')[k])
  {
    if emailList.Arr? then emailList.items
    else
      TrimEach(Split(emailList.s, ','))
  }

  /** What the checks before the loop decide: reject with a status and an
      error text, or go on with the message and the coerced recipients. */
  datatype Verdict = Reject(status: int, error: string) | Proceed(msg: string, recipients: seq<string>)

  /** The checks in the order the handler makes them: the message first, then
      the recipient list; the list is coerced only once both pass. */
  function Validate(req: Request): (v: Verdict)
    ensures v.Proceed? ==> req.msg == Str(v.msg) && !AllSpace(v.msg) && |v.recipients| >= 1
    ensures v.Proceed? ==> !req.emailList.Null? && v.recipients == Coerce(req.emailList)
    ensures req.msg.Str? && !AllSpace(req.msg.s) && !ListMissing(req.emailList) ==>
      v == Proceed(req.msg.s, Coerce(req.emailList))
  {
    if !Truthy(req.msg) then Reject(400, MessageEmpty)
    else if !req.msg.Str? then Reject(500, TrimNotAFunction)
    else if |Trim(req.msg.s)| == 0 then Reject(400, MessageEmpty)
    else
      TrimEmptyIff(req.msg.s);
      CheckList(req.msg.s, req.emailList)
  }

  /** A missing or zero-length recipient list. */
  predicate ListMissing(emailList: Value) {
    emailList == Null || emailList == Str("") || emailList == Arr([])
  }

  /** The recipient-list check, made once the message has passed: it
      proceeds exactly when the list is present and not of length zero, and
      then with the coerced list. */
  function CheckList(msg: string, emailList: Value): (v: Verdict)
    ensures v.Proceed? <==> !ListMissing(emailList)
    ensures v.Proceed? ==> !emailList.Null? && v == Proceed(msg, Coerce(emailList))
    ensures v.Reject? ==> v == Reject(400, ListEmpty)
    ensures v.Proceed? ==> |v.recipients| >= 1
  {
    if !Truthy(emailList) || Length(emailList) == 0 then Reject(400, ListEmpty)
    else Proceed(msg, Coerce(emailList))
  }

  // ---------- The dispatch fold ----------

  /** The entry recorded for one recipient. */
  function Record(email: string, r: SendResult): (e: RecipientResult)
    ensures e.email == email
    ensures e.Sent? <==> r == Accepted
    ensures r.Refused? ==> e.Failed? && e.error == r.detail
  {
    match r
    case Accepted => Sent(email)
    case Refused(detail) => Failed(email, detail)
  }

  /** The results of the loop, where `outcome(i)` is what the i-th send of
      this request did: entry i is recipient i with outcome i. */
  function Collect(recipients: seq<string>, outcome: nat -> SendResult): (results: seq<RecipientResult>)
    ensures |results| == |recipients|
    ensures forall i :: 0 <= i < |recipients| ==> results[i] == Record(recipients[i], outcome(i))
  {
    if recipients == [] then []
    else
      var n := |recipients| - 1;
      Collect(recipients[..n], outcome) + [Record(recipients[n], outcome(n))]
  }

  /** The mails the loop hands to the provider: one per recipient, in order,
      all with the same sender, subject and text. */
  function Mails(from: string, msg: string, recipients: seq<string>): (mails: seq<Mail>)
    ensures |mails| == |recipients|
    ensures forall i :: 0 <= i < |recipients| ==> mails[i] == Mail(recipients[i], from, Subject, msg)
  {
    if recipients == [] then []
    else
      var n := |recipients| - 1;
      Mails(from, msg, recipients[..n]) + [Mail(recipients[n], from, Subject, msg)]
  }

  /** The mails one request sends. They do not depend on any outcome. */
  function Sends(from: string, req: Request): (mails: seq<Mail>)
    ensures mails == [] <==> Validate(req).Reject?
    ensures Validate(req).Proceed? ==> |mails| == |Validate(req).recipients|
  {
    match Validate(req)
    case Reject(_, _) => []
    case Proceed(msg, recipients) => Mails(from, msg, recipients)
  }

  /** The reply to one request, given the outcome of each of its sends. */
  function Respond(from: string, req: Request, outcome: nat -> SendResult): (reply: Reply)
    ensures reply.body.success <==> Validate(req).Proceed?
    ensures reply.status == 200 <==> reply.body.success
    ensures reply.status == 200 || reply.status == 400 || reply.status == 500
    ensures reply.body.Delivery? <==> reply.body.success
  {
    match Validate(req)
    case Reject(status, error) => Reply(status, Failure(false, error))
    case Proceed(msg, recipients) => Reply(200, Delivery(true, Collect(recipients, outcome)))
  }

  /** The outcomes that follow the first `k` calls of an oracle. */
  function Shift(answer: nat -> SendResult, k: nat): nat -> SendResult {
    (i: nat) => answer(k + i)
  }

  // ---------- The provider client and the handler ----------

  /** The provider client: it keeps the mails handed to it, in order. */
  class Mailer {
    /** What the provider does with the n-th mail handed to this client. */
    const answer: nat -> SendResult
    var log: seq<Mail>

    constructor (answer: nat -> SendResult)
      ensures this.answer == answer && log == []
    {
      this.answer := answer;
      log := [];
    }

    /** One provider call. */
    method Send(mail: Mail) returns (r: SendResult)
      modifies this
      ensures log == old(log) + [mail]
      ensures r == answer(|old(log)|)
    {
      r := answer(|log|);
      log := log + [mail];
    }
  }

  /** The loop: one send per recipient, in order; a failed send is recorded
      and the loop goes on. */
  method Dispatch(mailer: Mailer, from: string, msg: string, recipients: seq<string>)
    returns (results: seq<RecipientResult>)
    modifies mailer
    ensures mailer.log == old(mailer.log) + Mails(from, msg, recipients)
    ensures results == Collect(recipients, Shift(mailer.answer, |old(mailer.log)|))
  {
    ghost var outcome := Shift(mailer.answer, |mailer.log|);
    results := [];
    for i := 0 to |recipients|
      invariant mailer.log == old(mailer.log) + Mails(from, msg, recipients[..i])
      invariant results == Collect(recipients[..i], outcome)
    {
      var email := recipients[i];
      var r := mailer.Send(Mail(email, from, Subject, msg));
      match r {
        case Accepted =>
          results := results + [Sent(email)];
        case Refused(detail) =>
          results := results + [Failed(email, detail)];
      }
      assert recipients[..i + 1][..i] == recipients[..i];
    }
    assert recipients[..|recipients|] == recipients;
  }

  /** The whole handler: validation, coercion, the loop and the envelope. */
  method HandleSendMail(mailer: Mailer, from: string, req: Request) returns (reply: Reply)
    modifies mailer
    ensures mailer.log == old(mailer.log) + Sends(from, req)
    ensures reply == Respond(from, req, Shift(mailer.answer, |old(mailer.log)|))
  {
    match Validate(req) {
      case Reject(status, error) =>
        reply := Reply(status, Failure(false, error));
      case Proceed(msg, recipients) =>
        var results := Dispatch(mailer, from, msg, recipients);
        reply := Reply(200, Delivery(true, results));
    }
  }

  /** Submitting the same request twice sends every mail twice: nothing
      suppresses a repeated submission. */
  method Resubmit(answer: nat -> SendResult, from: string, req: Request) returns (log: seq<Mail>)
    ensures log == Sends(from, req) + Sends(from, req)
    ensures Validate(req).Proceed? ==> |log| == 2 * |Validate(req).recipients| > 0
  {
    ghost var sent := Sends(from, req);
    var mailer := new Mailer(answer);
    var first := HandleSendMail(mailer, from, req);
    assert mailer.log == [] + sent == sent;
    var second := HandleSendMail(mailer, from, req);
    log := mailer.log;
  }

  // ---------- Properties ----------

  /** A missing, empty or whitespace-only message. */
  predicate MessageMissing(msg: Value) {
    msg.Null? || (msg.Str? && AllSpace(msg.s))
  }

  /** The message is checked first: it is rejected with 400 and "Message
      content is empty" exactly when it is missing, empty or whitespace
      only, whatever the recipient list, and then nothing is sent. */
  lemma MessageCheckedFirst(from: string, req: Request, outcome: nat -> SendResult)
    ensures Validate(req) == Reject(400, MessageEmpty) <==> MessageMissing(req.msg)
    ensures MessageMissing(req.msg) ==>
      Respond(from, req, outcome) == Reply(400, Failure(false, MessageEmpty)) && Sends(from, req) == []
  {
    if req.msg.Str? {
      TrimEmptyIff(req.msg.s);
    }
  }

  /** With a valid message, the list is rejected with 400 and "Email list is
      empty" exactly when it is missing or of length zero. */
  lemma ListCheckedSecond(from: string, req: Request, outcome: nat -> SendResult)
    requires req.msg.Str? && !AllSpace(req.msg.s)
    ensures Validate(req) == Reject(400, ListEmpty) <==> ListMissing(req.emailList)
    ensures ListMissing(req.emailList) ==>
      Respond(from, req, outcome) == Reply(400, Failure(false, ListEmpty)) && Sends(from, req) == []
  {
    TrimEmptyIff(req.msg.s);
    assert Validate(req) == CheckList(req.msg.s, req.emailList);
    if !ListMissing(req.emailList) {
      assert Truthy(req.emailList) && Length(req.emailList) != 0;
    }
  }

  /** A message that is not a string makes `msg.trim()` throw; the outer
      `catch` answers 500 and nothing is sent. */
  lemma ArrayMessageFails(from: string, req: Request, outcome: nat -> SendResult)
    requires req.msg.Arr?
    ensures Respond(from, req, outcome) == Reply(500, Failure(false, TrimNotAFunction))
    ensures Sends(from, req) == []
  {
  }

  /** The length check happens before the split, so a non-empty string made
      only of commas and blanks (such as "," or " ") passes and yields one
      empty recipient per piece, each of which is still sent to. */
  lemma BlankRecipientsDispatched(from: string, msg: string, list: string)
    requires !AllSpace(msg)
    requires list != "" && forall i :: 0 <= i < |list| ==> list[i] == ',' || IsSpace(list[i])
    ensures var v := Validate(Request(Str(msg), Str(list)));
      && v.Proceed?
      && |v.recipients| == multiset(list)[','] + 1
      && (forall k :: 0 <= k < |v.recipients| ==> v.recipients[k] == "")
      && |Sends(from, Request(Str(msg), Str(list)))| == |v.recipients|
  {
    var req := Request(Str(msg), Str(list));
    assert !ListMissing(req.emailList);
    BlankPieces(list);
  }

  /** Every piece of a string of commas and blanks trims to "". */
  lemma BlankPieces(list: string)
    requires forall i :: 0 <= i < |list| ==> list[i] == ',' || IsSpace(list[i])
    ensures forall k :: 0 <= k < |Coerce(Str(list))| ==> Coerce(Str(list))[k] == ""
  {
    var pieces := Split(list, ',');
    var r := Coerce(Str(list));
    forall k | 0 <= k < |r| ensures r[k] == "" {
      assert AllSpace(r[k]) by {
        forall i | 0 <= i < |r[k]| ensures IsSpace(r[k][i]) {
          assert r[k][i] in r[k];
          SplitChars(list, ',', k, r[k][i]);
        }
      }
      TrimEmptyIff(r[k]);
      TrimIdempotent(pieces[k]);
    }
  }

  /** A comma-separated string of addresses, padded with blanks, becomes the
      list of the addresses themselves. */
  lemma CoerceJoined(addresses: seq<string>, pads: seq<(string, string)>)
    requires |addresses| >= 1 && |pads| == |addresses|
    requires forall k :: 0 <= k < |addresses| ==> ',' !in addresses[k] && Trimmed(addresses[k])
    requires forall k :: 0 <= k < |pads| ==> AllSpace(pads[k].0) && AllSpace(pads[k].1) && ',' !in pads[k].0 + pads[k].1
    ensures Coerce(Str(Join(Padded(addresses, pads), ','))) == addresses
  {
    var parts := Padded(addresses, pads);
    forall k | 0 <= k < |parts| ensures ',' !in parts[k] {
      assert parts[k] == pads[k].0 + addresses[k] + pads[k].1;
    }
    SplitJoin(parts, ',');
    forall k | 0 <= k < |parts| ensures Trim(parts[k]) == addresses[k] {
      TrimUnique(pads[k].0, addresses[k], pads[k].1);
    }
  }

  /** Each address with its leading and trailing blanks. */
  function Padded(addresses: seq<string>, pads: seq<(string, string)>): (parts: seq<string>)
    requires |pads| == |addresses|
    ensures |parts| == |addresses|
  {
    seq(|addresses|, k requires 0 <= k < |addresses| => pads[k].0 + addresses[k] + pads[k].1)
  }

  /** An accepted request answers 200 with `success` true and one entry per
      recipient, in input order; entry i names recipient i, and it is "sent"
      exactly when send i succeeded, else "failed" with that send's error. */
  lemma ResultsFollowRecipients(from: string, req: Request, outcome: nat -> SendResult)
    requires Validate(req).Proceed?
    ensures var reply := Respond(from, req, outcome);
      var recipients := Validate(req).recipients;
      && reply.status == 200 && reply.body.Delivery? && reply.body.success
      && |reply.body.results| == |recipients|
      && forall i :: 0 <= i < |recipients| ==>
        && reply.body.results[i].email == recipients[i]
        && (reply.body.results[i].Status() == "sent" <==> outcome(i) == Accepted)
        && (reply.body.results[i].Status() == "failed" <==>
              outcome(i).Refused? && reply.body.results[i] == Failed(recipients[i], outcome(i).detail))
  {
  }

  /** The envelope says `success: true` even when every send failed. */
  lemma SuccessEvenIfAllFailed(from: string, req: Request, outcome: nat -> SendResult)
    requires Validate(req).Proceed?
    requires forall i :: 0 <= i < |Validate(req).recipients| ==> outcome(i).Refused?
    ensures Respond(from, req, outcome).body.success
    ensures forall e :: e in Respond(from, req, outcome).body.results ==> e.Failed?
  {
  }

  /** Catch-and-continue: entry j depends on send j alone, so a failure at
      any other position changes nothing about it. */
  lemma EntryDependsOnOwnSend(from: string, req: Request, o1: nat -> SendResult, o2: nat -> SendResult, j: nat)
    requires Validate(req).Proceed? && j < |Validate(req).recipients|
    requires o1(j) == o2(j)
    ensures Respond(from, req, o1).body.results[j] == Respond(from, req, o2).body.results[j]
  {
  }

  /** Exactly one send per recipient: the addresses sent to, in order, are
      the recipients, duplicates included, and each mail has the fixed
      subject, the configured sender and the message as its text. */
  lemma OneSendPerRecipient(from: string, msg: string, recipients: seq<string>)
    ensures Addressees(Mails(from, msg, recipients)) == recipients
    ensures forall m :: m in Mails(from, msg, recipients) ==>
      m.from == from && m.subject == Subject && m.text == msg
  {
    var mails := Mails(from, msg, recipients);
    assert forall i :: 0 <= i < |mails| ==> Addressees(mails)[i] == recipients[i];
    assert Addressees(mails) == recipients;
    forall m | m in mails ensures m.from == from && m.subject == Subject && m.text == msg {
      var i :| 0 <= i < |mails| && mails[i] == m;
    }
  }

  /** The `to` field of each mail, in order. */
  function Addressees(mails: seq<Mail>): (tos: seq<string>)
    ensures |tos| == |mails|
  {
    seq(|mails|, i requires 0 <= i < |mails| => mails[i].to)
  }

  /** The example of a partial failure: B fails, A and C are sent, and the
      envelope still says `success: true`. */
  lemma PartialFailureExample(from: string, outcome: nat -> SendResult)
    requires outcome(0) == Accepted && outcome(1) == Refused("rejected") && outcome(2) == Accepted
    ensures Respond(from, Request(Str("hello"), Arr(["A", "B", "C"])), outcome)
      == Reply(200, Delivery(true, [Sent("A"), Failed("B", "rejected"), Sent("C")]))
  {
    var req := Request(Str("hello"), Arr(["A", "B", "C"]));
    assert Trim("hello") == "hello" by {
      TrimUnique("", "hello", "");
      assert "" + "hello" + "" == "hello";
    }
    assert Validate(req) == Proceed("hello", ["A", "B", "C"]);
    var results := Collect(["A", "B", "C"], outcome);
    assert results[0] == Sent("A") && results[1] == Failed("B", "rejected") && results[2] == Sent("C");
    assert results == [Sent("A"), Failed("B", "rejected"), Sent("C")];
  }
}
