/** Runs of a browser against the handler: how often a partner is visited. */
module FrequencyCap {
  import opened Options
  import opened Bytes
  import opened Numerals
  import opened Cookies
  import opened Partners

  /** One request: the choice made between `start` and `stop`, and the time `sent` at which a cookie is written. */
  datatype Visit = Visit(ext: int, partner: Partner, start: Time, stop: Time, sent: Time, pid: Pid)

  predicate KeepsTime(v: Visit) {
    v.pid != 0 && !Returned(v.ext, v.pid, v.partner.self)
  }

  function TimeCookie(v: Visit): Cookie {
    Cookie(TimeKey(v.pid), DecimalText(v.sent))
  }

  /** The jar after the response to a visit. */
  function After(jar: seq<Cookie>, v: Visit): seq<Cookie> {
    if KeepsTime(v) then Keep(jar, TimeCookie(v)) else jar
  }

  /** Whatever else happens to the jar, the times stay. */
  ghost predicate SameTimes(a: seq<Cookie>, b: seq<Cookie>) {
    forall pid: Pid :: InJar(a, TimeKey(pid)) == InJar(b, TimeKey(pid))
  }

  ghost predicate Served(jar: seq<Cookie>, v: Visit) {
    && v.start <= v.stop <= v.sent
    && Selected(v.pid, Header(jar), v.ext, v.partner.weight, v.partner.expires, v.start, v.stop)
  }

  /** A run: `jars[i]` is what the browser holds when it makes request `i`. The clock never
      runs backwards. */
  ghost predicate Run(jars: seq<seq<Cookie>>, visits: seq<Visit>) {
    && |jars| == |visits|
    && (forall i :: 0 <= i < |jars| ==> JarOk(jars[i]) && Served(jars[i], visits[i]))
    && (forall i :: 0 < i < |jars| ==> Follows(jars[i - 1], visits[i - 1], jars[i], visits[i]))
  }

  ghost predicate Follows(jar: seq<Cookie>, v: Visit, next: seq<Cookie>, w: Visit) {
    SameTimes(After(jar, v), next) && v.sent <= w.start
  }

  /** The handler's answer to a visit, and the browser that keeps it, give the jar after it. */
  method Serve(mapping: Mapping, jar: seq<Cookie>, returnAddress: Text, attributes: Text, fill: Text -> Text)
      returns (outcome: Outcome, ghost v: Visit, next: seq<Cookie>)
    requires mapping.cookieHeader == Header(jar) && mapping.url == [] && JarOk(jar)
    requires attributes == [] || attributes[0] == SEMICOLON
    modifies mapping, mapping.clock
    ensures Served(jar, v) && v.pid == mapping.pid && v.ext == mapping.ext && v.partner == mapping.partner
    ensures old(mapping.clock.now) == v.start && v.sent == mapping.clock.now
    ensures next == After(jar, v) && JarOk(next)
  {
    hide Selected, Header, JarOk, DecimalText, SetCookie, Received;
    outcome := mapping.Handle(returnAddress, attributes, fill);
    ghost var stop: Time :| old(mapping.clock.now) <= stop <= mapping.clock.now
      && Selected(mapping.pid, mapping.cookieHeader, mapping.ext, mapping.partner.weight, mapping.partner.expires, old(mapping.clock.now), stop);
    v := Visit(mapping.ext, mapping.partner, old(mapping.clock.now), stop, mapping.clock.now, mapping.pid);
    next := match outcome.cookie
      case None => jar
      case Some(text) => Keep(jar, Received(text));
    TimeCookieOk(v);
    ReceivedIsSent(TimeCookie(v), attributes);
    KeepInJar(jar, TimeCookie(v), []);
  }

  lemma TimeCookieOk(v: Visit)
    ensures NameOk(TimeCookie(v).name) && ValueOk(TimeCookie(v).value)
  {
    TimeKeyOk(v.pid);
    TimeOk(v.sent);
  }

  // ---------------------------------------------------------------- the times in the jar

  lemma HeldAfter(jar: seq<Cookie>, v: Visit, next: seq<Cookie>, w: Visit, pid: Pid)
    requires Follows(jar, v, next, w)
    ensures InJar(next, TimeKey(pid)) ==
      if KeepsTime(v) && v.pid == pid then DecimalText(v.sent) else InJar(jar, TimeKey(pid))
  {
    KeepInJar(jar, TimeCookie(v), TimeKey(pid));
    TimeKeysDiffer(v.pid, pid);
  }

  lemma FollowsAt(jars: seq<seq<Cookie>>, visits: seq<Visit>, j: nat)
    requires Run(jars, visits) && 0 < j < |visits|
    ensures |jars| == |visits| && Follows(jars[j - 1], visits[j - 1], jars[j], visits[j])
  {
  }

  lemma ServedAt(jars: seq<seq<Cookie>>, visits: seq<Visit>, j: nat)
    requires Run(jars, visits) && j < |visits|
    ensures |jars| == |visits| && JarOk(jars[j])
    ensures visits[j].start <= visits[j].stop <= visits[j].sent
    ensures visits[j].pid != 0 ==>
      Eligible(Header(jars[j]), visits[j].ext, visits[j].partner.expires, visits[j].pid, visits[j].stop)
  {
    hide Eligible;
    assert Served(jars[j], visits[j]);
  }

  /** No visit `from..to` keeps a time for the partner. */
  ghost predicate NoneKept(visits: seq<Visit>, from: nat, to: nat, pid: Pid) {
    forall k :: from <= k < to <= |visits| ==> !(KeepsTime(visits[k]) && visits[k].pid == pid)
  }

  /** Until the next time is kept, the one in the jar stays. */
  lemma {:induction false} HeldUnchanged(jars: seq<seq<Cookie>>, visits: seq<Visit>, i: nat, j: nat, pid: Pid)
    requires Run(jars, visits) && i <= j < |visits| && NoneKept(visits, i, j, pid)
    ensures |jars| == |visits| && InJar(jars[j], TimeKey(pid)) == InJar(jars[i], TimeKey(pid))
    decreases j
  {
    hide Run, Follows, InJar, TimeKey, KeepsTime;
    ServedAt(jars, visits, j);
    if i < j {
      FollowsAt(jars, visits, j);
      HeldAfter(jars[j - 1], visits[j - 1], jars[j], visits[j], pid);
      HeldUnchanged(jars, visits, i, j - 1, pid);
    }
  }

  lemma HeldSince(jars: seq<seq<Cookie>>, visits: seq<Visit>, i: nat, j: nat)
    requires Run(jars, visits) && i < j < |visits| && KeepsTime(visits[i]) && NoneKept(visits, i + 1, j, visits[i].pid)
    ensures |jars| == |visits| && JarOk(jars[j])
    ensures InJar(jars[j], TimeKey(visits[i].pid)) == DecimalText(visits[i].sent)
  {
    hide Run, Follows, InJar, TimeKey, KeepsTime, NoneKept;
    ServedAt(jars, visits, j);
    FollowsAt(jars, visits, i + 1);
    HeldAfter(jars[i], visits[i], jars[i + 1], visits[i + 1], visits[i].pid);
    HeldUnchanged(jars, visits, i + 1, j, visits[i].pid);
  }

  lemma {:induction false} ClockRuns(jars: seq<seq<Cookie>>, visits: seq<Visit>, i: nat, j: nat)
    requires Run(jars, visits) && i <= j < |visits|
    ensures visits[i].sent <= visits[j].sent && (i < j ==> visits[i].sent <= visits[j].start)
    decreases j
  {
    hide Run;
    ServedAt(jars, visits, j);
    if i < j {
      ClockRuns(jars, visits, i, j - 1);
      FollowsAt(jars, visits, j);
    }
  }

  // ---------------------------------------------------------------- the cap

  /** The code's test for a held time, with its sum of two 32-bit integers. */
  predicate Expired(sent: Time, period: Int32, now: int) {
    Wrapped(Wrapped(sent) + period) < now
  }

  /** With a time in the jar, the partner may be visited exactly when that has expired. */
  lemma EligibleWhenExpired(jar: seq<Cookie>, ext: int, expires: map<Pid, Int32>, pid: Pid, sent: Time, now: int)
    requires JarOk(jar) && InJar(jar, TimeKey(pid)) == DecimalText(sent) && pid in expires
    ensures Eligible(Header(jar), ext, expires, pid, now) <==> Expired(sent, expires[pid], now)
  {
    hide Lookup, DecimalText, TimeKey, NameOk, JarOk, InJar, Atoi, Wrapped, Header;
    TimeKeyOk(pid);
    LookupInJar(jar, TimeKey(pid));
    TimeOk(sent);
  }

  /** The sum does not leave 32 bits, or the period is negative. */
  predicate Holds(sent: Time, period: Int32) {
    period < 0 || sent + period <= INT_MAX
  }

  /** The test keeps a partner back for its period exactly when the sum fits; otherwise the
      partner may be visited again at once. */
  lemma HoldsExactly(sent: Time, period: Int32)
    ensures (forall now: Time :: now >= sent && Expired(sent, period, now) ==> now > sent + period) <==> Holds(sent, period)
    ensures !Holds(sent, period) ==> forall now: Time :: now >= sent ==> Expired(sent, period, now)
  {
    WrappedAdd(sent, period);
    if Holds(sent, period) {
      assert period >= 0 ==> Wrapped(sent + period) == sent + period;
    } else {
      assert Wrapped(sent + period) < sent;
      assert Expired(sent, period, sent);
    }
  }

  /** The frequency cap. A partner that has been sent a visitor is chosen again only when more
      than its period has passed since then, if that sum fits into 32 bits for every time kept
      in between. */
  lemma Capped(jars: seq<seq<Cookie>>, visits: seq<Visit>, i: nat, j: nat, last: nat)
    requires Run(jars, visits) && i <= last < j < |visits|
    requires KeepsTime(visits[i]) && visits[j].pid == visits[i].pid
    requires KeepsTime(visits[last]) && visits[last].pid == visits[i].pid && NoneKept(visits, last + 1, j, visits[i].pid)
    requires var pid := visits[i].pid;
      pid in visits[j].partner.expires ==> Holds(visits[last].sent, visits[j].partner.expires[pid])
    ensures visits[j].pid in visits[j].partner.expires
    ensures visits[j].stop > visits[i].sent + visits[j].partner.expires[visits[j].pid]
  {
    hide Run, JarOk, InJar, TimeKey, DecimalText, NoneKept, Expired, Holds, Eligible;
    var w := visits[j];
    ServedAt(jars, visits, j);
    EligibleHasPeriod(Header(jars[j]), w.ext, w.partner.expires, w.pid, w.stop);
    ClockRuns(jars, visits, i, last);
    ClockRuns(jars, visits, last, j);
    HeldSince(jars, visits, last, j);
    EligibleWhenExpired(jars[j], w.ext, w.partner.expires, w.pid, visits[last].sent, w.stop);
    HoldsExactly(visits[last].sent, w.partner.expires[w.pid]);
  }

  /** The cap over every time at which the next request may come: it holds exactly when the sum
      fits. When it does not, the partner may be visited at once, whatever its period. */
  lemma CappedExactly(jars: seq<seq<Cookie>>, visits: seq<Visit>, i: nat, j: nat, ext: int, expires: map<Pid, Int32>)
    requires Run(jars, visits) && i < j < |visits|
    requires KeepsTime(visits[i]) && NoneKept(visits, i + 1, j, visits[i].pid) && visits[i].pid in expires
    ensures |jars| == |visits|
    ensures var sent, period := visits[i].sent, expires[visits[i].pid];
      (forall now: Time :: now >= sent && Eligible(Header(jars[j]), ext, expires, visits[i].pid, now) ==> now > sent + period)
        <==> period < 0 || sent + period <= INT_MAX
  {
    hide Run, JarOk, InJar, TimeKey, DecimalText, NoneKept, Expired, Eligible;
    var pid := visits[i].pid;
    var sent: Time, period: Int32 := visits[i].sent, expires[pid];
    HeldSince(jars, visits, i, j);
    forall now: Time ensures Eligible(Header(jars[j]), ext, expires, pid, now) <==> Expired(sent, period, now) {
      EligibleWhenExpired(jars[j], ext, expires, pid, sent, now);
    }
    HoldsExactly(sent, period);
    if !Holds(sent, period) { assert Eligible(Header(jars[j]), ext, expires, pid, sent); }
  }

  /** A period of a day, in 2038: the partner is chosen again one second later. */
  lemma TooSoon() returns (jars: seq<seq<Cookie>>, visits: seq<Visit>)
    ensures Run(jars, visits) && |visits| == 2
    ensures visits[0].pid == visits[1].pid && KeepsTime(visits[0])
    ensures visits[0].sent == 2147483000 && visits[1].stop == 2147483001
    ensures visits[0].pid in visits[1].partner.expires && visits[1].partner.expires[visits[0].pid] == 86400
  {
    var pid: Pid := 4;
    var partner := Partner(map[pid := 100], map[pid := 86400], map[], []);
    var v := Visit(3, partner, 2147483000, 2147483000, 2147483000, pid);
    var w := Visit(3, partner, 2147483001, 2147483001, 2147483001, pid);
    jars, visits := [[], [TimeCookie(v)]], [v, w];
    hide Served, Run, TimeCookie, Eligible, Holds, Expired, Header, TimeKey;
    FirstTime(v);
    EligibleAtFirst(3, partner.expires, pid, 2147483000);
    HoldsNot();
    EligibleWhenExpired(jars[1], 3, partner.expires, pid, 2147483000, 2147483001);
    OnlyChoice([], v);
    OnlyChoice(jars[1], w);
    TwoVisits(v, w);
  }

  lemma HoldsNot()
    ensures Expired(2147483000, 86400, 2147483001)
  {
  }

  lemma FirstTime(v: Visit)
    ensures JarOk([TimeCookie(v)]) && InJar([TimeCookie(v)], TimeKey(v.pid)) == DecimalText(v.sent)
  {
    TimeCookieOk(v);
  }

  lemma TwoVisits(v: Visit, w: Visit)
    requires KeepsTime(v) && v.sent <= w.start && Served([], v) && Served([TimeCookie(v)], w)
    ensures Run([[], [TimeCookie(v)]], [v, w])
  {
    hide Served, DecimalText, TimeKey;
    TimeCookieOk(v);
  }

  lemma EligibleAtFirst(ext: int, expires: map<Pid, Int32>, pid: Pid, now: int)
    requires pid in expires && !Barred(ext, pid)
    ensures Eligible(Header([]), ext, expires, pid, now)
  {
    TimeKeyOk(pid);
    LookupInJar([], TimeKey(pid));
  }

  /** A partner alone in the tables, with a positive weight, is chosen when it may be visited. */
  lemma OnlyChoice(jar: seq<Cookie>, v: Visit)
    requires v.pid != 0 && v.partner.expires.Keys == {v.pid} && v.partner.weight == map[v.pid := 100]
    requires v.start <= v.stop <= v.sent
    requires Eligible(Header(jar), v.ext, v.partner.expires, v.pid, v.start)
    ensures Served(jar, v)
  {
    hide Lookup, Atoi, Wrapped, TimeKey, Header;
    var w := v.partner.weight;
    TotalWithout({v.pid}, w, v.pid);
    assert {v.pid} - {v.pid} == {};
    WrappedSame(100);
    EligibleLater(Header(jar), v.ext, v.partner.expires, v.pid, v.start, v.stop);
    assert Candidates({v.pid}, Header(jar), v.ext, v.partner.expires, v.start, v.stop);
    assert Chosen(v.pid, {v.pid}, w);
  }

  /** A visit that goes back to Tencent keeps no time: as long as no other visit does, the
      partner may be visited again at any later time, whatever its period. */
  lemma ReturnedStaysEligible(jars: seq<seq<Cookie>>, visits: seq<Visit>, i: nat, j: nat, now: Time)
    requires Run(jars, visits) && i < j < |visits| && visits[i].stop <= now
    requires visits[i].pid != 0 && !KeepsTime(visits[i]) && NoneKept(visits, i + 1, j, visits[i].pid)
    ensures |jars| == |visits| && Returned(visits[i].ext, visits[i].pid, visits[i].partner.self)
    ensures Eligible(Header(jars[j]), visits[i].ext, visits[i].partner.expires, visits[i].pid, now)
  {
    hide Run, JarOk, InJar, TimeKey, DecimalText, Eligible, Header;
    var v := visits[i];
    ServedAt(jars, visits, i);
    ServedAt(jars, visits, j);
    assert NoneKept(visits, i, j, v.pid);
    HeldUnchanged(jars, visits, i, j, v.pid);
    SameHeld(jars[i], jars[j], v.ext, v.partner.expires, v.pid, v.stop);
    EligibleLater(Header(jars[j]), v.ext, v.partner.expires, v.pid, v.stop, now);
  }

  lemma SameHeld(a: seq<Cookie>, b: seq<Cookie>, ext: int, expires: map<Pid, Int32>, pid: Pid, now: int)
    requires JarOk(a) && JarOk(b) && InJar(a, TimeKey(pid)) == InJar(b, TimeKey(pid))
    ensures Eligible(Header(a), ext, expires, pid, now) <==> Eligible(Header(b), ext, expires, pid, now)
  {
    hide Lookup, TimeKey, NameOk, JarOk, InJar, Atoi, Wrapped, Header;
    TimeKeyOk(pid);
    LookupInJar(a, TimeKey(pid));
    LookupInJar(b, TimeKey(pid));
  }

  /** So one browser can be sent back to Tencent twice within the period. */
  lemma ReturnedNotCapped() returns (jars: seq<seq<Cookie>>, visits: seq<Visit>)
    ensures Run(jars, visits) && |visits| == 2
    ensures visits[0].pid == visits[1].pid != 0 && !KeepsTime(visits[0])
    ensures visits[0].pid in visits[1].partner.expires
    ensures visits[1].stop <= visits[0].sent + visits[1].partner.expires[visits[0].pid]
  {
    var pid: Pid := RETURNED_TO_TENCENT;
    var partner := Partner(map[pid := 100], map[pid := 86400], map[], [1]);
    var v := Visit(TENCENT, partner, 0, 0, 0, pid);
    jars, visits := [[], []], [v, v];
    EligibleAtFirst(TENCENT, partner.expires, pid, 0);
    OnlyChoice([], v);
  }

  /** When a partner may be visited: with no time kept, at any time unless the pair is one of two;
      with a time kept, when more than the period has passed since, as long as 32 bits can tell. */
  lemma MayBeVisited(jar: seq<Cookie>, ext: int, expires: map<Pid, Int32>, pid: Pid, now: int)
    requires JarOk(jar) && pid in expires
    ensures InJar(jar, TimeKey(pid)) == [] ==>
      (Eligible(Header(jar), ext, expires, pid, now) <==> !(ext == 6 && pid == 4) && !(ext == 4 && pid == 7))
    ensures forall sent: Time :: InJar(jar, TimeKey(pid)) == DecimalText(sent) && sent <= INT_MAX && sent + expires[pid] <= INT_MAX ==>
      (Eligible(Header(jar), ext, expires, pid, now) <==> now > sent + expires[pid])
  {
    hide Lookup, DecimalText, TimeKey, NameOk, JarOk, InJar, Atoi, Wrapped, Header;
    TimeKeyOk(pid);
    LookupInJar(jar, TimeKey(pid));
    forall sent: Time | InJar(jar, TimeKey(pid)) == DecimalText(sent) && sent <= INT_MAX && sent + expires[pid] <= INT_MAX
      ensures Eligible(Header(jar), ext, expires, pid, now) <==> now > sent + expires[pid]
    {
      EligibleWhenExpired(jar, ext, expires, pid, sent, now);
      WrappedSame(sent);
      WrappedSame(sent + expires[pid]);
    }
  }

  /** A barred pair is never chosen as long as no request starts with a time for it. */
  lemma {:induction false} BarredNeverChosen(jars: seq<seq<Cookie>>, visits: seq<Visit>, ext: int, pid: Pid, j: nat)
    requires Run(jars, visits) && j < |visits| && ((ext == 6 && pid == 4) || (ext == 4 && pid == 7))
    requires InJar(jars[0], TimeKey(pid)) == [] && forall i :: 0 <= i <= j ==> visits[i].ext == ext
    ensures visits[j].pid != pid && InJar(jars[j], TimeKey(pid)) == []
    decreases j
  {
    hide Run, Lookup, DecimalText, TimeKey, NameOk, JarOk, InJar, Atoi, Follows;
    ServedAt(jars, visits, j);
    if j > 0 {
      BarredNeverChosen(jars, visits, ext, pid, j - 1);
      FollowsAt(jars, visits, j);
      HeldAfter(jars[j - 1], visits[j - 1], jars[j], visits[j], pid);
    }
    TimeKeyOk(pid);
    LookupInJar(jars[j], TimeKey(pid));
  }
}
