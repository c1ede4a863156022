/** The results ledger: facts accumulate in a pending fragment, a checkpoint
publishes and flushes before it clears, and only `finish` adds the end marker. */
module Ledger {
  import opened Publishing

  type Name = string

  datatype Verdict = Signal | GateFail(gate: Gate) | Panic(message: string)

  /** A row count that changed between iterations, or that is not the predicted one. */
  datatype Gate = Open | Identity(saw: nat, expected: nat) | Count(saw: nat, expected: nat)

  datatype Rows = NoRows | Rows(n: nat)

  /** One entity of the ledger, with the session it belongs to. */
  datatype Fact =
    | SessionStart(session: nat)
    | SpanFact(session: nat, id: nat, name: Name, begin: nat, duration: nat)
    | OutcomeFact(session: nat, id: nat, name: Name, verdict: Verdict, rows: Rows)
    | SessionEnd(session: nat, at: nat)

  ghost predicate EndMarked(facts: set<Fact>, session: nat) {
    exists at :: SessionEnd(session, at) in facts
  }

  /** In every prefix of the log, hence after a crash at any durable point, an
      end marker stands only with everything the session recorded. */
  ghost predicate EndCertifies(log: seq<set<Fact>>, session: nat, recorded: set<Fact>) {
    forall k :: 0 <= k <= |log| && EndMarked(Union(log[..k]), session) ==> recorded <= Union(log[..k])
  }

  /** What is recorded is still pending or already durable. */
  ghost predicate NothingLost(pile: Pile<Fact>, pending: set<Fact>, recorded: set<Fact>)
    requires Sound(pile)
  {
    pending <= recorded <= pending + Durable(pile)
  }

  lemma NoEndYet(log: seq<set<Fact>>, session: nat, k: nat)
    requires k <= |log| && !EndMarked(Union(log), session)
    ensures !EndMarked(Union(log[..k]), session)
  {
    UnionPrefix(log, k);
  }

  /** Publishing the whole pending fragment keeps the certificate. */
  lemma CertificateKept(p: Pile<Fact>, pending: set<Fact>, recorded: set<Fact>, session: nat, w: Weather)
    requires Sound(p) && NothingLost(p, pending, recorded) && !EndMarked(Published(p), session)
    ensures var q := Publish(p, pending, w);
            && Sound(q) && EndCertifies(q.log, session, recorded) && NothingLost(q, pending, recorded)
            && (Succeeds(w) ==> recorded <= Durable(q))
            && (!EndMarked(pending, session) ==> !EndMarked(Published(q), session))
  {
    hide Union;
    var q := Publish(p, pending, w);
    PublishLaw(p, pending, w);
    UnionSnoc(p.log, pending);
    UnionPrefix(p.log, p.durable);
    forall k | 0 <= k <= |q.log| && EndMarked(Union(q.log[..k]), session)
      ensures recorded <= Union(q.log[..k])
    {
      if k <= |p.log| {
        assert q.log[..k] == p.log[..k];
        NoEndYet(p.log, session, k);
      } else {
        assert q.log[..k] == p.log + [pending];
      }
    }
  }

  /** A line on the console, with the facts it announces and the id of the first
      of them. */
  datatype Line = Line(name: Name, verdict: Verdict, spans: nat, rows: Rows, id: nat, facts: set<Fact>)

  class ResultsLedger {
    const session: nat
    /** What each publication meets, by the clock. */
    const weather: nat -> Weather
    var clock: nat
    var pile: Pile<Fact>
    var pending: set<Fact>
    /** The source of fresh entity ids. */
    var nextId: nat
    var console: seq<Line>
    /** `finish` consumes the ledger. */
    var closed: bool
    ghost var recorded: set<Fact>

    ghost predicate Valid()
      reads this
    {
      && Sound(pile)
      && NothingLost(pile, pending, recorded)
      && EndCertifies(pile.log, session, recorded)
      && (!closed ==> !EndMarked(recorded, session) && !EndMarked(Published(pile), session))
      && (forall f :: f in recorded ==> f.session == session)
      && Announced(console, Durable(pile))
    }

    /** Every announced fact is durable. */
    static ghost predicate Announced(lines: seq<Line>, durable: set<Fact>) {
      forall i :: 0 <= i < |lines| ==> lines[i].facts <= durable
    }

    constructor (pile0: Pile<Fact>, id0: nat, weather0: nat -> Weather)
      requires Sound(pile0) && forall f :: f in Published(pile0) ==> f.session != id0
      ensures session == id0 && weather == weather0 && clock == 0 && nextId == 0
      ensures pile == pile0 && console == [] && !closed
      ensures Valid() && recorded == {SessionStart(id0)} && pending == recorded
    {
      session, weather, clock := id0, weather0, 0;
      pile, nextId, console, closed := pile0, 0, [], false;
      pending := {SessionStart(id0)};
      recorded := {SessionStart(id0)};
      new;
      forall k | 0 <= k <= |pile0.log|
        ensures !EndMarked(Union(pile0.log[..k]), id0)
      {
        NoEndYet(pile0.log, id0, k);
      }
    }

    method Span(name: Name, begin: nat, duration: nat) returns (fact: Fact)
      requires Valid() && !closed
      modifies this`pending, this`nextId, this`recorded
      ensures Valid()
      ensures fact == SpanFact(session, old(nextId), name, begin, duration)
      ensures nextId == old(nextId) + 1
      ensures pending == old(pending) + {fact} && recorded == old(recorded) + {fact}
    {
      fact := SpanFact(session, nextId, name, begin, duration);
      Note(fact);
    }

    method Outcome(name: Name, verdict: Verdict, rows: Rows) returns (fact: Fact)
      requires Valid() && !closed
      modifies this`pending, this`nextId, this`recorded
      ensures Valid()
      ensures fact == OutcomeFact(session, old(nextId), name, verdict, rows)
      ensures nextId == old(nextId) + 1
      ensures pending == old(pending) + {fact} && recorded == old(recorded) + {fact}
    {
      fact := OutcomeFact(session, nextId, name, verdict, rows);
      Note(fact);
    }

    method Note(fact: Fact)
      requires Valid() && !closed && fact.session == session && !fact.SessionEnd?
      modifies this`pending, this`nextId, this`recorded
      ensures Valid() && nextId == old(nextId) + 1
      ensures pending == old(pending) + {fact} && recorded == old(recorded) + {fact}
    {
      hide Union;
      forall k | 0 <= k <= |pile.log|
        ensures !EndMarked(Union(pile.log[..k]), session)
      {
        NoEndYet(pile.log, session, k);
      }
      pending := pending + {fact};
      recorded := recorded + {fact};
      nextId := nextId + 1;
    }

    /** Publish and flush a copy of the pending fragment; clear it only then. A
        failure keeps it for the next attempt. */
    method Checkpoint() returns (ok: bool)
      requires Valid() && !EndMarked(Published(pile), session)
      modifies this`pile, this`pending, this`clock
      ensures Valid()
      ensures ok <==> old(pending) == {} || Succeeds(weather(old(clock)))
      ensures ok ==> pending == {} && recorded <= Durable(pile)
      ensures !ok ==> pending == old(pending)
      ensures Durable(old(pile)) <= Durable(pile)
    {
      hide Union;
      if pending == {} {
        return true;
      }
      var w := weather(clock);
      clock := clock + 1;
      CertificateKept(pile, pending, recorded, session, w);
      PublishLaw(pile, pending, w);
      pile := Commit(pile, pending, w.commit);
      if !w.commit.Done? {
        return false;
      }
      pile := Flush(pile, w);
      if !w.flushed {
        return false;
      }
      pending := {};
      return true;
    }

    /** Print a line. */
    method Announce(line: Line)
      requires Valid() && line.facts <= Durable(pile)
      modifies this`console
      ensures Valid() && console == old(console) + [line]
    {
      hide Union;
      console := console + [line];
    }

    /** Add the end marker, publish, and close. */
    method Finish(at: nat) returns (ok: bool)
      requires Valid() && !closed
      modifies this
      ensures Valid() && closed && console == old(console)
      ensures recorded == old(recorded) + {SessionEnd(session, at)}
      ensures ok ==> EndMarked(Durable(pile), session)
      ensures EndMarked(Durable(pile), session) ==> recorded <= Durable(pile)
      ensures FairWeather(weather) ==> ok
    {
      hide Union;
      closed := true;
      forall k | 0 <= k <= |pile.log|
        ensures !EndMarked(Union(pile.log[..k]), session)
      {
        NoEndYet(pile.log, session, k);
      }
      pending := pending + {SessionEnd(session, at)};
      recorded := recorded + {SessionEnd(session, at)};
      ok := Checkpoint();
      assert SessionEnd(session, at) in recorded;
    }
  }

  /** Open a session: its start is durable before anyone learns of it. */
  method Open(pile: Pile<Fact>, session: nat, weather: nat -> Weather) returns (led: ResultsLedger, ok: bool)
    requires Sound(pile) && forall f :: f in Published(pile) ==> f.session != session
    ensures led.Valid() && !led.closed && fresh(led) && led.session == session && led.console == []
    ensures led.recorded == {SessionStart(session)}
    ensures ok ==> SessionStart(session) in Durable(led.pile)
    ensures FairWeather(weather) ==> ok
  {
    hide Union;
    led := new ResultsLedger(pile, session, weather);
    ok := led.Checkpoint();
    assert SessionStart(session) in led.recorded;
  }

  /** What a reader of the pile may conclude, after a crash at any point: an end
      marker in the durable part means the session is there completely. */
  lemma EndMeansComplete(pile: Pile<Fact>, session: nat, recorded: set<Fact>)
    requires Sound(pile) && EndCertifies(pile.log, session, recorded)
    requires EndMarked(Durable(pile), session)
    ensures recorded <= Durable(pile)
  {
  }
}
