/**
 One-time tickets of the local format service: issue, verify, and the nonce table of a
 service run. JSON, the keyed hash and origin normalisation are parameters.
 */
module LocalTickets {
  import opened Wrappers
  import opened Base64Url

  const TICKET_TTL := 120.0

  datatype Claims = Claims(
    deviceId: string, expires: int, nonce: string, origin: string, purpose: string, userId: string)

  /** `int(x)`: truncation toward zero. */
  function Trunc(x: real): int {
    if x >= 0.0 then x.Floor else -((-x).Floor)
  }

  datatype Codec = Codec(
    dump: Claims -> seq<Byte>,
    load: seq<Byte> -> Option<Claims>,
    sign: (string, string) -> seq<Byte>,
    normalize: string -> Option<string>)

  datatype Ticket = Ticket(text: string, expiresAt: real)

  /** `issue_local_format_ticket`; the nonce is what `secrets.token_urlsafe(18)` returned. */
  function Issue(codec: Codec, secret: string, origin: string, userId: string, deviceId: string,
                 nonce: string, now: real): Option<Ticket>
  {
    if |secret| < 32 then None
    else if codec.normalize(origin) == None then None
    else
      var expiresAt := now + TICKET_TTL;
      var claims := Claims(deviceId, Trunc(expiresAt), nonce, codec.normalize(origin).value,
                           "official-format", userId);
      Some(Ticket(Signed(codec, secret, claims), expiresAt))
  }

  function Signed(codec: Codec, secret: string, claims: Claims): string {
    var encoded := Encode(codec.dump(claims));
    encoded + "." + Encode(codec.sign(secret, encoded))
  }

  /** The position of the first dot, or the length. */
  function FirstDot(s: string): (n: nat)
    ensures n <= |s|
    ensures n < |s| ==> s[n] == '.'
    ensures '.' !in s[..n]
  {
    if s == "" || s[0] == '.' then 0 else 1 + FirstDot(s[1..])
  }

  datatype Verified = Verified(deviceId: string, nonce: string, origin: string, userId: string)

  /** `verify_local_format_ticket`; `None` is the one error it raises. */
  function Verify(codec: Codec, secret: string, ticket: string, origin: string, now: real): Option<Verified> {
    var dot := FirstDot(ticket);
    if dot == |ticket| then None
    else
      var encoded, signature := ticket[..dot], ticket[dot + 1..];
      if signature != Encode(codec.sign(secret, encoded)) then None
      else if Decode(encoded) == None || codec.load(Decode(encoded).value) == None then None
      else
        Judged(codec, codec.load(Decode(encoded).value).value, origin, now)
  }

  /** The checks on the claims themselves. */
  function Judged(codec: Codec, claims: Claims, origin: string, now: real): Option<Verified> {
    if claims.purpose != "official-format" then None
    else if claims.expires <= Trunc(now) then None
    else if Some(claims.origin) != codec.normalize(origin) then None
    else if !(20 <= |claims.nonce| <= 64) then None
    else Some(Verified(claims.deviceId, claims.nonce, claims.origin, claims.userId))
  }

  /** Truncation drops the fraction, toward zero. */
  lemma TruncDropsTheFraction(x: real)
    ensures x >= 0.0 ==> 0.0 <= Trunc(x) as real <= x < Trunc(x) as real + 1.0
    ensures x < 0.0 ==> Trunc(x) as real - 1.0 < x <= Trunc(x) as real <= 0.0
  {
  }

  /** A ticket is issued exactly for a long enough secret and a page origin, and expires two minutes later. */
  lemma IssuedWhen(codec: Codec, secret: string, origin: string, userId: string, deviceId: string,
                   nonce: string, now: real)
    ensures var ticket := Issue(codec, secret, origin, userId, deviceId, nonce, now);
            && (ticket.Some? <==> |secret| >= 32 && codec.normalize(origin).Some?)
            && (ticket.Some? ==> ticket.value.expiresAt == now + 120.0)
  {
  }

  lemma {:induction false} FirstDotOf(a: string, b: string)
    requires '.' !in a
    ensures FirstDot(a + "." + b) == |a|
  {
    var s := a + "." + b;
    if a != "" {
      assert s[1..] == a[1..] + "." + b;
      FirstDotOf(a[1..], b);
    }
  }

  lemma EncodedHasNoDot(bytes: seq<Byte>)
    ensures '.' !in Encode(bytes)
  {
    DecodeEncode(bytes);
  }

  /**
   A ticket is accepted with its own claims exactly while the checking clock has not reached
   the floored expiry and the page has the origin it was issued for.
   */
  lemma IssuedIsAccepted(codec: Codec, secret: string, origin: string, userId: string, deviceId: string,
                         nonce: string, issuedAt: real, page: string, now: real)
    requires forall claims :: codec.load(codec.dump(claims)) == Some(claims)
    requires 20 <= |nonce| <= 64
    requires Issue(codec, secret, origin, userId, deviceId, nonce, issuedAt).Some?
    ensures var ticket := Issue(codec, secret, origin, userId, deviceId, nonce, issuedAt).value.text;
            Verify(codec, secret, ticket, page, now)
            == if Trunc(now) < Trunc(issuedAt + 120.0) && codec.normalize(page) == codec.normalize(origin)
               then Some(Verified(deviceId, nonce, codec.normalize(origin).value, userId))
               else None
  {
    var claims := Claims(deviceId, Trunc(issuedAt + TICKET_TTL), nonce, codec.normalize(origin).value,
                         "official-format", userId);
    TicketComesApart(codec, secret, claims, page, now);
  }

  /** What the verification makes of a text signed over these claims. */
  lemma TicketComesApart(codec: Codec, secret: string, claims: Claims, page: string, now: real)
    requires codec.load(codec.dump(claims)) == Some(claims)
    ensures Verify(codec, secret, Signed(codec, secret, claims), page, now) == Judged(codec, claims, page, now)
  {
    var encoded := Encode(codec.dump(claims));
    var signature := Encode(codec.sign(secret, encoded));
    EncodedHasNoDot(codec.dump(claims));
    FirstDotOf(encoded, signature);
    ComesApart(encoded, signature);
    DecodeEncode(codec.dump(claims));
  }

  lemma ComesApart(a: string, b: string)
    ensures (a + "." + b)[..|a|] == a && (a + "." + b)[|a| + 1..] == b && |a + "." + b| > |a|
  {
  }

  /** What acceptance means for any text at all: signed claims, unexpired, for this origin. */
  lemma AcceptedIsSigned(codec: Codec, secret: string, ticket: string, page: string, now: real)
    returns (encoded: string, claims: Claims)
    requires Verify(codec, secret, ticket, page, now).Some?
    ensures ticket == encoded + "." + Encode(codec.sign(secret, encoded)) && '.' !in encoded
    ensures Decode(encoded).Some? && codec.load(Decode(encoded).value) == Some(claims)
    ensures Trunc(now) < claims.expires && codec.normalize(page) == Some(claims.origin)
    ensures claims.purpose == "official-format" && 20 <= |claims.nonce| <= 64
    ensures Verify(codec, secret, ticket, page, now).value
         == Verified(claims.deviceId, claims.nonce, claims.origin, claims.userId)
  {
    var dot := FirstDot(ticket);
    encoded := ticket[..dot];
    claims := codec.load(Decode(encoded).value).value;
    assert ticket == ticket[..dot] + [ticket[dot]] + ticket[dot + 1..];
  }

  /** And nothing more is asked: such a text is accepted. */
  lemma SignedIsAccepted(codec: Codec, secret: string, encoded: string, claims: Claims, page: string, now: real)
    requires '.' !in encoded && Decode(encoded).Some? && codec.load(Decode(encoded).value) == Some(claims)
    requires claims.purpose == "official-format" && 20 <= |claims.nonce| <= 64
    requires Trunc(now) < claims.expires && codec.normalize(page) == Some(claims.origin)
    ensures var ticket := encoded + "." + Encode(codec.sign(secret, encoded));
            Verify(codec, secret, ticket, page, now)
            == Some(Verified(claims.deviceId, claims.nonce, claims.origin, claims.userId))
  {
    var signature := Encode(codec.sign(secret, encoded));
    FirstDotOf(encoded, signature);
    ComesApart(encoded, signature);
  }

  // ---------------------------------------------------------------- a service run

  /**
   The clocks of a run, in seconds of the service's monotonic clock. The service's wall clock
   is the monotonic one plus `offset`; an issuer stamps a ticket with a wall clock that leads
   by at most `lead`; a request waits at most `delay` between verification and nonce check.
   */
  datatype Clocks = Clocks(
    idleTimeout: int,
    offset: real,
    lead: real,
    delay: real,
    issuedAt: string -> real,    // when the ticket with this nonce was issued
    stamp: string -> real)       // what the issuer's clock said then
  {
    function Idle(): int {
      if idleTimeout < 30 then 30 else idleTimeout
    }

    /** How long a used nonce is remembered at least. */
    function Horizon(): real {
      if Idle() as real > TICKET_TTL then Idle() as real else TICKET_TTL
    }

    /** The expiry test of `Verify` at monotonic time t. */
    predicate Unexpired(nonce: string, t: real) {
      Trunc(t + offset) < Trunc(stamp(nonce) + TICKET_TTL)
    }
  }

  /** The two locked sections: the nonce check of a verified request, and one clean-up. */
  datatype Event =
    | Check(nonce: string, verifiedAt: real, at: real)
    | CleanUp(sampled: real, at: real)   // `now` is read before the lock is taken

  /** Time does not run backwards, and a request was accepted before it is checked. */
  ghost predicate Possible(clocks: Clocks, e: Event, after: real) {
    && after <= e.at
    && match e
       case Check(nonce, verifiedAt, at) =>
         && clocks.stamp(nonce) <= clocks.issuedAt(nonce) + clocks.offset + clocks.lead
         && clocks.issuedAt(nonce) <= verifiedAt <= at <= verifiedAt + clocks.delay
         && clocks.Unexpired(nonce, verifiedAt)
       case CleanUp(sampled, at) => sampled <= at
  }

  ghost predicate IsRun(clocks: Clocks, events: seq<Event>, after: real)
    decreases |events|
  {
    events == [] || (Possible(clocks, events[0], after) && IsRun(clocks, events[1..], events[0].at))
  }

  type Nonces = map<string, real>

  /** Lines 541-545. */
  function Remembered(clocks: Clocks, used: Nonces, now: real): (r: Nonces)
    ensures forall n :: n in r <==> n in used && now - used[n] < clocks.Horizon()
    ensures forall n :: n in r ==> r[n] == used[n]
  {
    map n | n in used && now - used[n] < clocks.Horizon() :: used[n]
  }

  function After(clocks: Clocks, used: Nonces, e: Event): Nonces {
    match e
    case Check(nonce, _, at) => if nonce in used then used else used[nonce := at]
    case CleanUp(sampled, _) => Remembered(clocks, used, sampled)
  }

  /** The nonces that opened a session, in order. */
  function Opened(clocks: Clocks, used: Nonces, events: seq<Event>): seq<string>
    decreases |events|
  {
    if events == [] then []
    else
      (if events[0].Check? && events[0].nonce !in used then [events[0].nonce] else [])
      + Opened(clocks, After(clocks, used, events[0]), events[1..])
  }

  /** The fields of the running service that the two locked sections touch. */
  class FormatService {
    var usedNonces: Nonces
    var lastActivity: map<nat, real>   // by session
    ghost var openings: seq<string>

    constructor ()
      ensures usedNonces == map[] && lastActivity == map[] && openings == []
    {
      usedNonces, lastActivity, openings := map[], map[], [];
    }

    /** Lines 344-352: the locked check and insert, then the new session. */
    method OpenSession(clocks: Clocks, nonce: string, verifiedAt: real, at: real, sessionId: nat)
      returns (refused: bool)
      requires sessionId !in lastActivity
      modifies this
      ensures refused == (nonce in old(usedNonces))
      ensures usedNonces == if refused then old(usedNonces) else old(usedNonces)[nonce := at]
      ensures usedNonces == After(clocks, old(usedNonces), Check(nonce, verifiedAt, at))
      ensures lastActivity == if refused then old(lastActivity) else old(lastActivity)[sessionId := at]
      ensures openings == old(openings) + Opened(clocks, old(usedNonces), [Check(nonce, verifiedAt, at)])
    {
      refused := nonce in usedNonces;
      ghost var events := [Check(nonce, verifiedAt, at)];
      assert events[1..] == [];
      if !refused {
        usedNonces := usedNonces[nonce := at];
        lastActivity := lastActivity[sessionId := at];
        openings := openings + [nonce];
      }
    }

    /** One turn of `_cleanup_loop`, lines 534-547. */
    method CleanUpOnce(clocks: Clocks, now: real)
      modifies this
      ensures usedNonces == After(clocks, old(usedNonces), CleanUp(now, now))
      ensures forall n :: n in usedNonces <==>
        n in old(usedNonces)
        && (now - old(usedNonces)[n] < 120.0 || now - old(usedNonces)[n] < clocks.idleTimeout as real)
      ensures forall s :: s in lastActivity <==>
        s in old(lastActivity)
        && (now - old(lastActivity)[s] < 30.0 || now - old(lastActivity)[s] < clocks.idleTimeout as real)
      ensures forall s :: s in lastActivity <==>
        s in old(lastActivity) && now - old(lastActivity)[s] < clocks.Idle() as real
      ensures forall s :: s in lastActivity ==> lastActivity[s] == old(lastActivity)[s]
      ensures openings == old(openings)
    {
      var expired := set s | s in lastActivity && now - lastActivity[s] >= clocks.Idle() as real;
      usedNonces := Remembered(clocks, usedNonces, now);
      lastActivity := lastActivity - expired;
    }
  }

  // ---------------------------------------------------------------- one session per nonce

  /** A nonce that opened a session is remembered, or its horizon has passed. */
  ghost predicate Covered(clocks: Clocks, used: Nonces, nonce: string, first: real, now: real) {
    (nonce in used && used[nonce] == first) || first + clocks.Horizon() <= now
  }

  /** An accepted ticket is checked before the horizon of any earlier use has passed. */
  lemma CheckedWithinHorizon(clocks: Clocks, e: Event, after: real, first: real)
    requires e.Check? && Possible(clocks, e, after)
    requires clocks.issuedAt(e.nonce) <= first
    requires clocks.lead + clocks.delay <= clocks.Horizon() - TICKET_TTL
    ensures e.at < first + clocks.Horizon()
  {
  }

  lemma {:induction false} NeverAgain(clocks: Clocks, used: Nonces, events: seq<Event>,
                                      nonce: string, first: real, now: real)
    requires IsRun(clocks, events, now) && Covered(clocks, used, nonce, first, now)
    requires clocks.issuedAt(nonce) <= first
    requires clocks.lead + clocks.delay <= clocks.Horizon() - TICKET_TTL
    ensures nonce !in Opened(clocks, used, events)
    decreases |events|
  {
    if events == [] {
    } else {
      var e := events[0];
      if e.Check? && e.nonce == nonce {
        CheckedWithinHorizon(clocks, e, now, first);
      }
      NeverAgain(clocks, After(clocks, used, e), events[1..], nonce, first, e.at);
    }
  }

  predicate NoRepeats(names: seq<string>) {
    forall i, j :: 0 <= i < j < |names| ==> names[i] != names[j]
  }

  /**
   Over a whole run no nonce opens two sessions, although used nonces are purged, when the
   issuer's lead and the delay together fit between the ticket lifetime and the horizon.
   */
  lemma {:induction false} OneSessionPerNonce(clocks: Clocks, used: Nonces, events: seq<Event>, now: real)
    requires IsRun(clocks, events, now)
    requires clocks.lead + clocks.delay <= clocks.Horizon() - TICKET_TTL
    ensures NoRepeats(Opened(clocks, used, events))
    decreases |events|
  {
    if events == [] {
    } else {
      var e, rest := events[0], Opened(clocks, After(clocks, used, events[0]), events[1..]);
      OneSessionPerNonce(clocks, After(clocks, used, e), events[1..], e.at);
      if e.Check? && e.nonce !in used {
        NeverAgain(clocks, After(clocks, used, e), events[1..], e.nonce, e.at, e.at);
      }
    }
  }

  /**
   The condition is exact. With any larger lead plus delay (and a lead that leaves the ticket
   usable at all) there is a run in which one nonce opens two sessions.
   */
  lemma ReplayBeyondTheHorizon(idleTimeout: int, lead: real, delay: real) returns (clocks: Clocks, events: seq<Event>)
    requires delay >= 0.0 && lead > -TICKET_TTL
    requires lead + delay > Clocks(idleTimeout, 0.0, lead, delay, n => 0.0, n => 0.0).Horizon() - TICKET_TTL
    ensures clocks.idleTimeout == idleTimeout && clocks.lead == lead && clocks.delay == delay
    ensures IsRun(clocks, events, 0.0)
    ensures Opened(clocks, map[], events) == ["n", "n"]
  {
    // Issued at 0 with the stamp 0, so the expiry is 120 on the service's wall clock.
    clocks := Clocks(idleTimeout, -lead, lead, delay, n => 0.0, n => 0.0);
    var excess := lead + delay - (clocks.Horizon() - TICKET_TTL);
    var slack := if excess < TICKET_TTL + lead then excess else TICKET_TTL + lead;
    var late := TICKET_TTL + lead - (if slack < 1.0 then slack else 1.0);
    var first, purge, second :=
      Check("n", 0.0, 0.0), CleanUp(late + delay, late + delay), Check("n", late, late + delay);
    events := [first, purge, second];
    assert Trunc(-lead) < Trunc(TICKET_TTL) && Trunc(late - lead) < Trunc(TICKET_TTL);
    var used := After(clocks, map[], first);
    assert used == map["n" := 0.0];
    assert After(clocks, used, purge) == map[];
    assert events[1..] == [purge, second] && events[1..][1..] == [second] && events[1..][1..][1..] == [];
    assert Possible(clocks, first, 0.0) && Possible(clocks, purge, 0.0);
    assert Possible(clocks, second, late + delay);
    assert IsRun(clocks, [second], late + delay) && IsRun(clocks, [purge, second], 0.0);
    assert Opened(clocks, map[], [second]) == ["n"];
    assert Opened(clocks, used, [purge, second]) == ["n"];
  }

  /** The shipped idle timeout of fifteen minutes leaves lead and delay a margin of thirteen. */
  lemma ShippedMargin(clocks: Clocks, used: Nonces, events: seq<Event>, now: real)
    requires IsRun(clocks, events, now) && clocks.idleTimeout == 15 * 60 && clocks.lead + clocks.delay <= 780.0
    ensures NoRepeats(Opened(clocks, used, events))
  {
    OneSessionPerNonce(clocks, used, events, now);
  }
}
