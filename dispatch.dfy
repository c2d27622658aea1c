/** Notification fan-out as controllers/adminController.js performs it in
    `sendNotification` and `broadcastNotification`: one in-app record per
    recipient, and an email attempt per recipient when the requested channel
    includes email. Everything the handlers write goes, in order, into an
    outbox of effects, so that the order of records and attempts can be
    stated. Whether an email attempt is delivered is decided by a `Mailer`
    from the position at which the attempt is written; an undelivered attempt
    ends the handler, as the uncaught rejection of `sendEmail` does. */
module Dispatch {
  import opened Common

  datatype Notification = Notification(userId: Id, userModel: string, message: string, channel: string)

  datatype Email = Email(to: string, subject: string, body: string)

  datatype Effect = Notified(note: Notification) | Mailed(mail: Email, delivered: bool)

  /** Outcome of the email attempt written at outbox position k. */
  type Mailer = nat -> bool

  /** A user as its email lookup sees it; an empty address stands for an absent one. */
  datatype Contact = Contact(id: Id, email: string)

  /** The body fields of a notification request. */
  datatype Request = Request(userModel: string, message: string, channel: string, emailSubject: Option<string>)

  /** The outbox after a handler's loop, and whether the loop ran to its end. */
  datatype Run = Run(outbox: seq<Effect>, completed: bool)

  predicate WantsEmail(channel: string) {
    channel == "email" || channel == "both"
  }

  /** `emailSubject || 'New Notification'`. */
  function SubjectLine(req: Request): string {
    if TruthyString(req.emailSubject) then req.emailSubject.value else "New Notification"
  }

  /** The record written for one recipient: always `in-app`, whatever channel was asked for. */
  function InApp(id: Id, req: Request): Notification {
    Notification(id, req.userModel, req.message, "in-app")
  }

  /** The records written for a list of recipients, in order. */
  function InApps(ids: seq<Id>, req: Request): seq<Notification> {
    if ids == [] then [] else [InApp(ids[0], req)] + InApps(ids[1..], req)
  }

  /** One record per recipient, in order, each with channel `in-app`. */
  lemma {:induction false} InAppsPointwise(ids: seq<Id>, req: Request)
    ensures |InApps(ids, req)| == |ids|
    ensures forall k :: 0 <= k < |ids| ==> InApps(ids, req)[k] == InApp(ids[k], req)
    ensures forall k :: 0 <= k < |ids| ==> InApps(ids, req)[k].channel == "in-app"
  {
    if ids != [] {
      InAppsPointwise(ids[1..], req);
    }
  }

  lemma {:induction false} InAppsAppend(a: seq<Id>, b: seq<Id>, req: Request)
    ensures InApps(a + b, req) == InApps(a, req) + InApps(b, req)
  {
    if a == [] {
      assert a + b == b;
    } else {
      assert (a + b)[1..] == a[1..] + b;
      InAppsAppend(a[1..], b, req);
    }
  }

  /** `Model.findById(userId)` followed by `user && user.email`: the address
      of the first contact with that id, when it has one. */
  function Address(dir: seq<Contact>, id: Id): Option<string> {
    if dir == [] then None
    else if dir[0].id == id then (if dir[0].email != "" then Some(dir[0].email) else None)
    else Address(dir[1..], id)
  }

  /** `Address` is the first-match lookup of the store. */
  lemma {:induction false} AddressIsFirstMatch(dir: seq<Contact>, id: Id)
    ensures var k := FindFirst(dir, (c: Contact) => c.id == id);
      Address(dir, id) == if k.Some? && dir[k.value].email != "" then Some(dir[k.value].email) else None
  {
    if dir != [] && dir[0].id != id {
      AddressIsFirstMatch(dir[1..], id);
      var k := FindFirst(dir[1..], (c: Contact) => c.id == id);
      if k.Some? {
        assert dir[1..][k.value] == dir[k.value + 1];
      }
    }
  }

  /** The email `sendNotification` attempts for one recipient, if any. */
  function MailFor(id: Id, req: Request, dir: seq<Contact>): Option<Email> {
    if WantsEmail(req.channel) && Address(dir, id).Some? then
      Some(Email(Address(dir, id).value, SubjectLine(req), req.message))
    else None
  }

  /** One iteration of `sendNotification`'s loop: save the in-app record,
      then attempt the email if one is due. `completed` is false when that
      attempt was not delivered. */
  function Step(outbox: seq<Effect>, id: Id, req: Request, dir: seq<Contact>, mailer: Mailer): Run {
    var noted := outbox + [Notified(InApp(id, req))];
    match MailFor(id, req, dir)
    case None => Run(noted, true)
    case Some(mail) => Run(noted + [Mailed(mail, mailer(|noted|))], mailer(|noted|))
  }

  /** The whole `for...of` loop of `sendNotification`. */
  function Fanout(outbox: seq<Effect>, ids: seq<Id>, req: Request, dir: seq<Contact>, mailer: Mailer): Run
    decreases |ids|
  {
    if ids == [] then Run(outbox, true)
    else
      var step := Step(outbox, ids[0], req, dir, mailer);
      if step.completed then Fanout(step.outbox, ids[1..], req, dir, mailer) else step
  }

  //  Projections of an outbox

  function Notes(effs: seq<Effect>): seq<Notification> {
    if effs == [] then []
    else Notes(effs[..|effs| - 1]) + (if effs[|effs| - 1].Notified? then [effs[|effs| - 1].note] else [])
  }

  function Mails(effs: seq<Effect>): seq<Email> {
    if effs == [] then []
    else Mails(effs[..|effs| - 1]) + (if effs[|effs| - 1].Mailed? then [effs[|effs| - 1].mail] else [])
  }

  /** Appending one effect adds its record or its email. */
  lemma Snoc(effs: seq<Effect>, e: Effect)
    ensures Notes(effs + [e]) == Notes(effs) + (if e.Notified? then [e.note] else [])
    ensures Mails(effs + [e]) == Mails(effs) + (if e.Mailed? then [e.mail] else [])
  {
    assert (effs + [e])[..|effs|] == effs;
  }

  lemma {:induction false} NotesAppend(a: seq<Effect>, b: seq<Effect>)
    ensures Notes(a + b) == Notes(a) + Notes(b)
    decreases |b|
  {
    if b == [] {
      assert a + b == a;
    } else {
      var init, e := b[..|b| - 1], b[|b| - 1];
      assert a + b == (a + init) + [e];
      assert b == init + [e];
      NotesAppend(a, init);
      Snoc(a + init, e);
      Snoc(init, e);
    }
  }

  lemma {:induction false} MailsAppend(a: seq<Effect>, b: seq<Effect>)
    ensures Mails(a + b) == Mails(a) + Mails(b)
    decreases |b|
  {
    if b == [] {
      assert a + b == a;
    } else {
      var init, e := b[..|b| - 1], b[|b| - 1];
      assert a + b == (a + init) + [e];
      assert b == init + [e];
      MailsAppend(a, init);
      Snoc(a + init, e);
      Snoc(init, e);
    }
  }

  /** The records and the emails of a concatenated outbox are those of its parts. */
  lemma ProjectionsAppend(a: seq<Effect>, b: seq<Effect>)
    ensures Notes(a + b) == Notes(a) + Notes(b)
    ensures Mails(a + b) == Mails(a) + Mails(b)
  {
    NotesAppend(a, b);
    MailsAppend(a, b);
  }

  function MailList(id: Id, req: Request, dir: seq<Contact>): seq<Email> {
    match MailFor(id, req, dir)
    case None => []
    case Some(m) => [m]
  }

  /** The emails `sendNotification` attempts for a list of recipients, in order. */
  function Targets(ids: seq<Id>, req: Request, dir: seq<Contact>): seq<Email> {
    if ids == [] then [] else MailList(ids[0], req, dir) + Targets(ids[1..], req, dir)
  }

  lemma {:induction false} TargetsAppend(a: seq<Id>, b: seq<Id>, req: Request, dir: seq<Contact>)
    ensures Targets(a + b, req, dir) == Targets(a, req, dir) + Targets(b, req, dir)
  {
    if a == [] {
      assert a + b == b;
    } else {
      assert (a + b)[1..] == a[1..] + b;
      TargetsAppend(a[1..], b, req, dir);
    }
  }

  /** Every mail effect at or after `from` directly follows the in-app record
      of a recipient whose looked-up address it is sent to. */
  predicate MailFollowsNote(effs: seq<Effect>, from: nat, req: Request, dir: seq<Contact>) {
    (from < |effs| ==> !effs[from].Mailed?) &&
    forall p :: from <= p < |effs| - 1 ==> NoteThenMail(effs, p, req, dir)
  }

  /** If position `p + 1` holds an email attempt, position `p` holds the
      in-app record of the recipient whose address it goes to. */
  predicate NoteThenMail(effs: seq<Effect>, p: nat, req: Request, dir: seq<Contact>)
    requires p + 1 < |effs|
  {
    effs[p + 1].Mailed? ==>
      effs[p].Notified? && MailFor(effs[p].note.userId, req, dir) == Some(effs[p + 1].mail)
  }

  //  Properties of sendNotification's loop

  /** One iteration appends the recipient's record and then its attempt, if
      due; it ends the loop only when that attempt was not delivered. */
  lemma StepShape(outbox: seq<Effect>, id: Id, req: Request, dir: seq<Contact>, mailer: Mailer)
    ensures var step := Step(outbox, id, req, dir, mailer);
      |step.outbox| > |outbox| && step.outbox[..|outbox|] == outbox &&
      step.outbox[|outbox|] == Notified(InApp(id, req)) &&
      (!step.completed ==>
         MailFor(id, req, dir).Some? && step.outbox[|step.outbox| - 1] == Mailed(MailFor(id, req, dir).value, false))
  {
  }

  /** One iteration writes exactly one in-app record, the recipient's. */
  lemma StepNotes(outbox: seq<Effect>, id: Id, req: Request, dir: seq<Contact>, mailer: Mailer)
    ensures Notes(Step(outbox, id, req, dir, mailer).outbox) == Notes(outbox) + [InApp(id, req)]
  {
    var n := Notified(InApp(id, req));
    Snoc(outbox, n);
    match MailFor(id, req, dir)
    case None =>
    case Some(mail) =>
      Snoc(outbox + [n], Mailed(mail, mailer(|outbox| + 1)));
  }

  /** One iteration attempts exactly the recipient's due email, if any. */
  lemma StepMails(outbox: seq<Effect>, id: Id, req: Request, dir: seq<Contact>, mailer: Mailer)
    ensures Mails(Step(outbox, id, req, dir, mailer).outbox) == Mails(outbox) + MailList(id, req, dir)
  {
    var n := Notified(InApp(id, req));
    Snoc(outbox, n);
    match MailFor(id, req, dir)
    case None =>
    case Some(mail) =>
      Snoc(outbox + [n], Mailed(mail, mailer(|outbox| + 1)));
  }

  /** The loop only appends to the outbox, and each email attempt in what it
      appends directly follows the in-app record of the recipient whose
      looked-up address it goes to. */
  lemma {:induction false} FanoutExtends(outbox: seq<Effect>, ids: seq<Id>, req: Request, dir: seq<Contact>, mailer: Mailer)
    ensures var ob := Fanout(outbox, ids, req, dir, mailer).outbox;
      |outbox| <= |ob| && ob[..|outbox|] == outbox && MailFollowsNote(ob, |outbox|, req, dir)
    decreases |ids|
  {
    if ids != [] {
      var step := Step(outbox, ids[0], req, dir, mailer);
      StepShape(outbox, ids[0], req, dir, mailer);
      if step.completed {
        FanoutExtends(step.outbox, ids[1..], req, dir, mailer);
        var ob := Fanout(step.outbox, ids[1..], req, dir, mailer).outbox;
        assert ob[..|step.outbox|] == step.outbox;
        assert forall p :: |outbox| <= p < |step.outbox| ==> ob[p] == step.outbox[p];
      }
    }
  }

  /** The recipients the loop gets to: all of them, or those up to and
      including the one whose email was not delivered. */
  function Reached(outbox: seq<Effect>, ids: seq<Id>, req: Request, dir: seq<Contact>, mailer: Mailer): seq<Id>
    decreases |ids|
  {
    if ids == [] then []
    else
      var step := Step(outbox, ids[0], req, dir, mailer);
      [ids[0]] + (if step.completed then Reached(step.outbox, ids[1..], req, dir, mailer) else [])
  }

  lemma Associative<T>(a: seq<T>, b: seq<T>, c: seq<T>)
    ensures (a + b) + c == a + (b + c)
  {
  }

  /** Whether or not it completes, the loop writes exactly the in-app records
      of the recipients it reaches, in order. */
  lemma {:induction false} FanoutNotes(outbox: seq<Effect>, ids: seq<Id>, req: Request, dir: seq<Contact>, mailer: Mailer)
    ensures Notes(Fanout(outbox, ids, req, dir, mailer).outbox) == Notes(outbox) + InApps(Reached(outbox, ids, req, dir, mailer), req)
    decreases |ids|
  {
    if ids != [] {
      var step := Step(outbox, ids[0], req, dir, mailer);
      StepNotes(outbox, ids[0], req, dir, mailer);
      if step.completed {
        FanoutNotes(step.outbox, ids[1..], req, dir, mailer);
        var r := Reached(step.outbox, ids[1..], req, dir, mailer);
        assert ([ids[0]] + r)[1..] == r;
        Associative(Notes(outbox), [InApp(ids[0], req)], InApps(r, req));
      } else {
        assert ([ids[0]] + [])[1..] == [];
      }
    }
  }

  /** Whether or not it completes, the loop attempts exactly the due emails
      of the recipients it reaches, in order. */
  lemma {:induction false} FanoutMails(outbox: seq<Effect>, ids: seq<Id>, req: Request, dir: seq<Contact>, mailer: Mailer)
    ensures Mails(Fanout(outbox, ids, req, dir, mailer).outbox) == Mails(outbox) + Targets(Reached(outbox, ids, req, dir, mailer), req, dir)
    decreases |ids|
  {
    if ids != [] {
      var step := Step(outbox, ids[0], req, dir, mailer);
      StepMails(outbox, ids[0], req, dir, mailer);
      if step.completed {
        FanoutMails(step.outbox, ids[1..], req, dir, mailer);
        var r := Reached(step.outbox, ids[1..], req, dir, mailer);
        assert ([ids[0]] + r)[1..] == r;
        Associative(Mails(outbox), MailList(ids[0], req, dir), Targets(r, req, dir));
      } else {
        assert ([ids[0]] + [])[1..] == [];
      }
    }
  }

  /** A loop that completes reaches every recipient. */
  lemma {:induction false} ReachedAll(outbox: seq<Effect>, ids: seq<Id>, req: Request, dir: seq<Contact>, mailer: Mailer)
    requires Fanout(outbox, ids, req, dir, mailer).completed
    ensures Reached(outbox, ids, req, dir, mailer) == ids
    decreases |ids|
  {
    if ids != [] {
      var step := Step(outbox, ids[0], req, dir, mailer);
      ReachedAll(step.outbox, ids[1..], req, dir, mailer);
    }
  }

  /** A loop that runs to its end writes one in-app record per element of
      `ids`, in order and duplicates included, and attempts exactly the emails
      the channel and the address lookups call for. */
  lemma FanoutCompleted(outbox: seq<Effect>, ids: seq<Id>, req: Request, dir: seq<Contact>, mailer: Mailer)
    requires Fanout(outbox, ids, req, dir, mailer).completed
    ensures Notes(Fanout(outbox, ids, req, dir, mailer).outbox) == Notes(outbox) + InApps(ids, req)
    ensures Mails(Fanout(outbox, ids, req, dir, mailer).outbox) == Mails(outbox) + Targets(ids, req, dir)
  {
    ReachedAll(outbox, ids, req, dir, mailer);
    FanoutNotes(outbox, ids, req, dir, mailer);
    FanoutMails(outbox, ids, req, dir, mailer);
  }

  /** The position in `ids` of the recipient whose undelivered email cut the loop short. */
  function FailedAt(outbox: seq<Effect>, ids: seq<Id>, req: Request, dir: seq<Contact>, mailer: Mailer): (k: nat)
    requires !Fanout(outbox, ids, req, dir, mailer).completed
    ensures k < |ids|
    decreases |ids|
  {
    var step := Step(outbox, ids[0], req, dir, mailer);
    if step.completed then 1 + FailedAt(step.outbox, ids[1..], req, dir, mailer) else 0
  }

  /** A loop cut short at `k = FailedAt(..)` reaches exactly `ids[..k+1]`. */
  lemma {:induction false} ReachedUpToFailure(outbox: seq<Effect>, ids: seq<Id>, req: Request, dir: seq<Contact>, mailer: Mailer)
    requires !Fanout(outbox, ids, req, dir, mailer).completed
    ensures Reached(outbox, ids, req, dir, mailer) == ids[..FailedAt(outbox, ids, req, dir, mailer) + 1]
    decreases |ids|
  {
    var step := Step(outbox, ids[0], req, dir, mailer);
    if step.completed {
      ReachedUpToFailure(step.outbox, ids[1..], req, dir, mailer);
      var j := FailedAt(step.outbox, ids[1..], req, dir, mailer);
      assert ids[..j + 2] == [ids[0]] + ids[1..][..j + 1];
    } else {
      assert ids[..1] == [ids[0]];
    }
  }

  /** A loop cut short stops at recipient `k = FailedAt(..)`: that recipient
      has an address and its failed attempt is the last effect written. */
  lemma {:induction false} AbortedLast(outbox: seq<Effect>, ids: seq<Id>, req: Request, dir: seq<Contact>, mailer: Mailer)
    requires !Fanout(outbox, ids, req, dir, mailer).completed
    ensures var k := FailedAt(outbox, ids, req, dir, mailer);
      var ob := Fanout(outbox, ids, req, dir, mailer).outbox;
      MailFor(ids[k], req, dir).Some? && |ob| > 0 && ob[|ob| - 1] == Mailed(MailFor(ids[k], req, dir).value, false)
    decreases |ids|
  {
    var step := Step(outbox, ids[0], req, dir, mailer);
    StepShape(outbox, ids[0], req, dir, mailer);
    if step.completed {
      AbortedLast(step.outbox, ids[1..], req, dir, mailer);
    }
  }

  /** A loop cut short at `k` writes the in-app records of `ids[..k+1]` and
      attempts their emails, and nobody after `k` gets anything. */
  lemma Aborted(outbox: seq<Effect>, ids: seq<Id>, req: Request, dir: seq<Contact>, mailer: Mailer)
    requires !Fanout(outbox, ids, req, dir, mailer).completed
    ensures var k := FailedAt(outbox, ids, req, dir, mailer);
      Notes(Fanout(outbox, ids, req, dir, mailer).outbox) == Notes(outbox) + InApps(ids[..k + 1], req) &&
      Mails(Fanout(outbox, ids, req, dir, mailer).outbox) == Mails(outbox) + Targets(ids[..k + 1], req, dir)
  {
    ReachedUpToFailure(outbox, ids, req, dir, mailer);
    FanoutNotes(outbox, ids, req, dir, mailer);
    FanoutMails(outbox, ids, req, dir, mailer);
  }

  /** With a channel other than email or both, no email is attempted and the loop always completes. */
  lemma {:induction false} FanoutInAppOnly(outbox: seq<Effect>, ids: seq<Id>, req: Request, dir: seq<Contact>, mailer: Mailer)
    requires !WantsEmail(req.channel)
    ensures Fanout(outbox, ids, req, dir, mailer) ==
      Run(outbox + seq(|ids|, k requires 0 <= k < |ids| => Notified(InApp(ids[k], req))), true)
    decreases |ids|
  {
    if ids != [] {
      var noted := outbox + [Notified(InApp(ids[0], req))];
      FanoutInAppOnly(noted, ids[1..], req, dir, mailer);
      assert noted + seq(|ids[1..]|, k requires 0 <= k < |ids[1..]| => Notified(InApp(ids[1..][k], req)))
          == outbox + seq(|ids|, k requires 0 <= k < |ids| => Notified(InApp(ids[k], req)));
    }
  }

  /** Three recipients with addresses, the second delivery failing: the
      first recipient's record and delivered email, then the second's record
      and failed attempt, are all that is written; the third recipient gets
      nothing, and the handler does not report success. */
  lemma PartialFailure(a: Id, b: Id, c: Id, req: Request, mailer: Mailer)
    requires WantsEmail(req.channel)
    requires a != b
    requires mailer(1) && !mailer(3)
    ensures var dir := [Contact(a, "a@x"), Contact(b, "b@x"), Contact(c, "c@x")];
      var mail := (to: string) => Email(to, SubjectLine(req), req.message);
      Fanout([], [a, b, c], req, dir, mailer) ==
        Run([Notified(InApp(a, req)), Mailed(mail("a@x"), true), Notified(InApp(b, req)), Mailed(mail("b@x"), false)], false)
  {
    var dir := [Contact(a, "a@x"), Contact(b, "b@x"), Contact(c, "c@x")];
    assert dir[1..] == [Contact(b, "b@x"), Contact(c, "c@x")];
    assert Address(dir, b) == Some("b@x");
    var s1 := Step([], a, req, dir, mailer);
    assert s1 == Run([Notified(InApp(a, req)), Mailed(Email("a@x", SubjectLine(req), req.message), true)], true);
    assert [a, b, c][1..] == [b, c];
    assert Fanout([], [a, b, c], req, dir, mailer) == Fanout(s1.outbox, [b, c], req, dir, mailer);
  }

  //  broadcastNotification

  /** The first loop of `broadcastNotification`: one in-app record per user of the snapshot. */
  function Announce(users: seq<Contact>, req: Request): (r: seq<Effect>)
    ensures |r| == |users|
    ensures forall k :: 0 <= k < |users| ==> r[k] == Notified(InApp(users[k].id, req))
  {
    seq(|users|, k requires 0 <= k < |users| => Notified(InApp(users[k].id, req)))
  }

  function Ids(users: seq<Contact>): (r: seq<Id>)
    ensures |r| == |users| && forall k :: 0 <= k < |users| ==> r[k] == users[k].id
  {
    seq(|users|, k requires 0 <= k < |users| => users[k].id)
  }

  /** The second loop: an attempt for every user with an address. */
  function MailEach(outbox: seq<Effect>, users: seq<Contact>, subject: string, message: string, mailer: Mailer): Run
    decreases |users|
  {
    if users == [] then Run(outbox, true)
    else if users[0].email == "" then MailEach(outbox, users[1..], subject, message, mailer)
    else
      var ok := mailer(|outbox|);
      var mailed := outbox + [Mailed(Email(users[0].email, subject, message), ok)];
      if ok then MailEach(mailed, users[1..], subject, message, mailer) else Run(mailed, false)
  }

  /** All of `broadcastNotification` after the snapshot `users` is taken. */
  function Broadcast(outbox: seq<Effect>, users: seq<Contact>, req: Request, mailer: Mailer): Run {
    var noted := outbox + Announce(users, req);
    if WantsEmail(req.channel) then MailEach(noted, users, SubjectLine(req), req.message, mailer)
    else Run(noted, true)
  }

  /** The success message: the count is the size of the snapshot. */
  function BroadcastReport(count: nat): string {
    "Notification sent to " + NatToString(count) + " users"
  }

  /** The emails the second loop attempts when it runs to its end. */
  function Addressed(users: seq<Contact>, subject: string, message: string): seq<Email> {
    if users == [] then []
    else
      var here := if users[0].email != "" then [Email(users[0].email, subject, message)] else [];
      here + Addressed(users[1..], subject, message)
  }

  /** The second loop keeps what was written before it and appends only email attempts. */
  lemma {:induction false} MailEachShape(outbox: seq<Effect>, users: seq<Contact>, subject: string, message: string, mailer: Mailer)
    ensures var run := MailEach(outbox, users, subject, message, mailer);
      |outbox| <= |run.outbox| && run.outbox[..|outbox|] == outbox &&
      (forall p :: |outbox| <= p < |run.outbox| ==> run.outbox[p].Mailed?)
    decreases |users|
  {
    if users != [] && users[0].email != "" {
      var e := Mailed(Email(users[0].email, subject, message), mailer(|outbox|));
      if mailer(|outbox|) {
        MailEachShape(outbox + [e], users[1..], subject, message, mailer);
        assert (outbox + [e])[..|outbox|] == outbox;
      }
    } else if users != [] {
      MailEachShape(outbox, users[1..], subject, message, mailer);
    }
  }

  /** The second loop writes no in-app record. */
  lemma {:induction false} MailEachNotes(outbox: seq<Effect>, users: seq<Contact>, subject: string, message: string, mailer: Mailer)
    ensures Notes(MailEach(outbox, users, subject, message, mailer).outbox) == Notes(outbox)
    decreases |users|
  {
    if users != [] && users[0].email != "" {
      var e := Mailed(Email(users[0].email, subject, message), mailer(|outbox|));
      Snoc(outbox, e);
      if mailer(|outbox|) {
        MailEachNotes(outbox + [e], users[1..], subject, message, mailer);
      }
    } else if users != [] {
      MailEachNotes(outbox, users[1..], subject, message, mailer);
    }
  }

  /** When the second loop completes, its attempts are exactly those for the
      users with an address, in snapshot order. */
  lemma {:induction false} MailEachMails(outbox: seq<Effect>, users: seq<Contact>, subject: string, message: string, mailer: Mailer)
    requires MailEach(outbox, users, subject, message, mailer).completed
    ensures Mails(MailEach(outbox, users, subject, message, mailer).outbox) ==
      Mails(outbox) + Addressed(users, subject, message)
    decreases |users|
  {
    if users != [] && users[0].email != "" {
      var mail := Email(users[0].email, subject, message);
      var e := Mailed(mail, mailer(|outbox|));
      Snoc(outbox, e);
      MailEachMails(outbox + [e], users[1..], subject, message, mailer);
      Associative(Mails(outbox), [mail], Addressed(users[1..], subject, message));
    } else if users != [] {
      MailEachMails(outbox, users[1..], subject, message, mailer);
    }
  }

  lemma {:induction false} AnnounceNotes(users: seq<Contact>, req: Request)
    ensures Notes(Announce(users, req)) == InApps(Ids(users), req)
    ensures Mails(Announce(users, req)) == []
    decreases |users|
  {
    if users == [] {
      assert Announce(users, req) == [];
      assert Ids(users) == [];
    } else {
      var init, last := users[..|users| - 1], users[|users| - 1];
      var n := Notified(InApp(last.id, req));
      assert Announce(users, req) == Announce(init, req) + [n];
      Snoc(Announce(init, req), n);
      AnnounceNotes(init, req);
      assert Ids(users) == Ids(init) + [last.id];
      InAppsAppend(Ids(init), [last.id], req);
      assert InApps([last.id], req) == [InApp(last.id, req)];
    }
  }

  /** Every in-app record of a broadcast is written before any email is
      attempted, whether or not the emails all go out: the records are one per
      user of the snapshot, in snapshot order. */
  lemma BroadcastNotesFirst(outbox: seq<Effect>, users: seq<Contact>, req: Request, mailer: Mailer)
    ensures var run := Broadcast(outbox, users, req, mailer);
      |run.outbox| >= |outbox| + |users| &&
      run.outbox[..|outbox| + |users|] == outbox + Announce(users, req) &&
      (forall p :: |outbox| + |users| <= p < |run.outbox| ==> run.outbox[p].Mailed?) &&
      Notes(run.outbox) == Notes(outbox) + InApps(Ids(users), req)
  {
    var noted := outbox + Announce(users, req);
    AnnounceNotes(users, req);
    ProjectionsAppend(outbox, Announce(users, req));
    if WantsEmail(req.channel) {
      MailEachShape(noted, users, SubjectLine(req), req.message, mailer);
      MailEachNotes(noted, users, SubjectLine(req), req.message, mailer);
    }
  }

  /** A completed broadcast attempts exactly one email per addressed user of
      the snapshot when email was asked for, and none otherwise. */
  lemma BroadcastMails(outbox: seq<Effect>, users: seq<Contact>, req: Request, mailer: Mailer)
    requires Broadcast(outbox, users, req, mailer).completed
    ensures Mails(Broadcast(outbox, users, req, mailer).outbox) ==
      Mails(outbox) + (if WantsEmail(req.channel) then Addressed(users, SubjectLine(req), req.message) else [])
  {
    var noted := outbox + Announce(users, req);
    AnnounceNotes(users, req);
    ProjectionsAppend(outbox, Announce(users, req));
    if WantsEmail(req.channel) {
      MailEachMails(noted, users, SubjectLine(req), req.message, mailer);
    }
  }
}
