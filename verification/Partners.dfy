/** Choosing the partner that a visitor is sent to. */
module Partners {
  import opened Options
  import opened Bytes
  import opened Numerals
  import opened Itoa
  import opened Cookies

  // ---------------------------------------------------------------- 32-bit integers

  const INT_MAX := 0x7FFF_FFFF

  type Int32 = i: int | -0x8000_0000 <= i <= 0x7FFF_FFFF

  /** An integer cut to 32 bits, as two's complement hardware adds. */
  function Wrapped(n: int): Int32 {
    (n + 0x8000_0000) % 0x1_0000_0000 - 0x8000_0000
  }

  lemma WrappedAdd(a: int, b: int)
    ensures Wrapped(Wrapped(a) + b) == Wrapped(a + b)
  {
  }

  lemma WrappedSame(n: Int32)
    ensures Wrapped(n) == n
  {
  }

  // ---------------------------------------------------------------- the C library's atoi

  function SkipSpaces(t: Text): Text {
    if t != [] && IsSpace(t[0]) then SkipSpaces(t[1..]) else t
  }

  function LeadingDigits(t: Text): (ds: Text)
    ensures AllDigits(ds)
  {
    if t != [] && IsDigit(t[0]) then [t[0]] + LeadingDigits(t[1..]) else []
  }

  /** The integer that a text starts with. */
  function IntegerIn(t: Text): int {
    var u := SkipSpaces(t);
    if u != [] && u[0] == '-' as int then 0 - Decimal(LeadingDigits(u[1..]))
    else if u != [] && u[0] == '+' as int then Decimal(LeadingDigits(u[1..]))
    else Decimal(LeadingDigits(u))
  }

  /** `strtol` stops at the ends of 64 bits, and its result is cut to 32. */
  function Atoi(t: Text): Int32 {
    var n := IntegerIn(t);
    Wrapped(if n < -0x8000_0000_0000_0000 then -0x8000_0000_0000_0000
            else if n > 0x7FFF_FFFF_FFFF_FFFF then 0x7FFF_FFFF_FFFF_FFFF else n)
  }

  lemma {:induction false} AllLead(t: Text)
    requires AllDigits(t)
    ensures LeadingDigits(t) == t
  {
    if t != [] {
      assert IsDigit(t[0]);
      AllLead(t[1..]);
    }
  }

  /** A written integer is read back. */
  lemma IntegerInText(v: int)
    ensures IntegerIn(IntegerText(v)) == v
  {
    var n: nat := if v < 0 then -v else v;
    var ds := DecimalText(n);
    DecimalOfText(n);
    AllLead(ds);
    assert IsDigit(ds[0]);
    assert v < 0 ==> IntegerText(v)[1..] == ds;
    assert !IsSpace(IntegerText(v)[0]);
  }

  // ---------------------------------------------------------------- timing cookies

  /** A partner's number. */
  type Pid = Int32

  /** Seconds since 1970, in 64 bits. */
  type Time = t: int | 0 <= t < 0x8000_0000_0000_0000

  /** The cookie that holds the time of the last visit to a partner: "t_" and the partner's number. */
  function TimeKey(pid: Pid): Text {
    Ascii("t_") + IntegerText(pid)
  }

  lemma TimeKeysDiffer(a: Pid, b: Pid)
    ensures TimeKey(a) == TimeKey(b) <==> a == b
  {
    assert TimeKey(a)[2..] == IntegerText(a) && TimeKey(b)[2..] == IntegerText(b);
    IntegerInText(a);
    IntegerInText(b);
  }

  lemma TimeKeyOk(pid: Pid)
    ensures NameOk(TimeKey(pid))
  {
    var k := TimeKey(pid);
    forall i | 0 <= i < |k| ensures !Separates(k[i]) && k[i] != EQUALS {
      if i >= 2 {
        var ds := DecimalText(if pid < 0 then 0 - pid else pid);
        assert AllDigits(ds);
        assert k[i] == '-' as int || k[i] in ds;
      }
    }
  }

  lemma TimeOk(t: Time)
    ensures ValueOk(DecimalText(t)) && DecimalText(t) != [] && Atoi(DecimalText(t)) == Wrapped(t)
  {
    IntegerInText(t);
  }

  // ---------------------------------------------------------------- what may be chosen

  datatype Partner = Partner(weight: map<Pid, Int32>, expires: map<Pid, Int32>, url: map<Pid, Text>, self: Text)

  /** Two redirects whose time cookie may fail to be kept are not tried without one. */
  predicate Barred(ext: int, pid: Pid) {
    (ext == 6 && pid == 4) || (ext == 4 && pid == 7)
  }

  /** A partner may be visited at time `now`: no time is known, or the known one has expired. */
  predicate Eligible(header: Text, ext: int, expires: map<Pid, Int32>, pid: Pid, now: int) {
    pid in expires &&
    var value := Lookup(header, TimeKey(pid), 0);
    if value == [] then !Barred(ext, pid) else Wrapped(Atoi(value) + expires[pid]) < now
  }

  function WeightOf(weight: map<Pid, Int32>, pid: Pid): Int32 {
    if pid in weight then weight[pid] else 0
  }

  /** The sum of the weights. */
  ghost function Total(pids: set<Pid>, weight: map<Pid, Int32>): int
    decreases |pids|
  {
    if pids == {} then 0
    else var p: Pid :| p in pids; WeightOf(weight, p) + Total(pids - {p}, weight)
  }

  lemma {:induction false} TotalWithout(pids: set<Pid>, weight: map<Pid, Int32>, x: Pid)
    requires x in pids
    ensures Total(pids, weight) == WeightOf(weight, x) + Total(pids - {x}, weight)
    decreases |pids|
  {
    var p: Pid :| p in pids && Total(pids, weight) == WeightOf(weight, p) + Total(pids - {p}, weight);
    if p != x {
      TotalWithout(pids - {p}, weight, x);
      TotalWithout(pids - {x}, weight, p);
      assert pids - {p} - {x} == pids - {x} - {p};
    }
  }

  /** The candidates lie between those that may be visited when the search starts and when it ends. */
  ghost predicate Candidates(winners: set<Pid>, header: Text, ext: int, expires: map<Pid, Int32>, start: int, stop: int) {
    && (forall p <- winners :: Eligible(header, ext, expires, p, stop))
    && (forall p :: Eligible(header, ext, expires, p, start) ==> p in winners)
  }

  /** A candidate of the greatest weight; 0 if no candidate's weight reaches 0, or the weights add up to 0 in 32 bits. */
  ghost predicate Chosen(pid: Pid, winners: set<Pid>, weight: map<Pid, Int32>) {
    && (pid != 0 ==>
          && weight != map[] && pid in winners && Wrapped(Total(winners, weight)) != 0
          && WeightOf(weight, pid) >= 0
          && forall p <- winners :: WeightOf(weight, p) <= WeightOf(weight, pid))
    && (pid == 0 ==>
          || weight == map[] || Wrapped(Total(winners, weight)) == 0
          || (forall p <- winners :: WeightOf(weight, p) < 0)
          || (0 in winners && forall p <- winners :: WeightOf(weight, p) <= WeightOf(weight, 0)))
  }

  ghost predicate Selected(pid: Pid, header: Text, ext: int, weight: map<Pid, Int32>, expires: map<Pid, Int32>, start: int, stop: int) {
    exists winners :: Candidates(winners, header, ext, expires, start, stop) && Chosen(pid, winners, weight)
  }

  lemma EligibleLater(header: Text, ext: int, expires: map<Pid, Int32>, pid: Pid, now: int, later: int)
    requires Eligible(header, ext, expires, pid, now) && now <= later
    ensures Eligible(header, ext, expires, pid, later)
  {
  }

  lemma EligibleAlone(header: Text, ext: int, expires: map<Pid, Int32>, pid: Pid, now: int)
    requires pid in expires
    ensures Eligible(header, ext, map[pid := expires[pid]], pid, now) <==> Eligible(header, ext, expires, pid, now)
  {
  }

  predicate NoNegative(weight: map<Pid, Int32>) {
    forall p <- weight :: weight[p] >= 0
  }

  lemma {:induction false} TotalPositive(pids: set<Pid>, weight: map<Pid, Int32>)
    requires NoNegative(weight)
    ensures Total(pids, weight) >= 0
    ensures Total(pids, weight) > 0 <==> exists p :: p in pids && WeightOf(weight, p) > 0
    decreases |pids|
  {
    if pids != {} {
      var p: Pid :| p in pids;
      TotalWithout(pids, weight, p);
      TotalPositive(pids - {p}, weight);
      if q :| q in pids && WeightOf(weight, q) > 0 {
        assert q == p || q in pids - {p};
      }
      if q :| q in pids - {p} && WeightOf(weight, q) > 0 {
        assert q in pids;
      }
    }
  }

  /** With no negative weight and no partner 0, there is no choice exactly when the weights of
      the candidates add up to a multiple of 2^32. */
  lemma NoChoiceExactly(pid: Pid, winners: set<Pid>, weight: map<Pid, Int32>)
    requires NoNegative(weight) && 0 !in winners && Chosen(pid, winners, weight)
    ensures pid == 0 <==> Total(winners, weight) % 0x1_0000_0000 == 0
    ensures pid != 0 ==> WeightOf(weight, pid) > 0
  {
    TotalPositive(winners, weight);
    hide Total;
    assert Wrapped(Total(winners, weight)) == 0 <==> Total(winners, weight) % 0x1_0000_0000 == 0;
  }

  /** With no negative weight and no partner 0, the choice has a positive weight that no
      partner exceeds which may be visited all along. */
  lemma SelectedIsBest(pid: Pid, header: Text, ext: int, weight: map<Pid, Int32>, expires: map<Pid, Int32>, start: int, stop: int)
    requires NoNegative(weight) && 0 !in expires
    requires Selected(pid, header, ext, weight, expires, start, stop)
    ensures pid != 0 ==> Eligible(header, ext, expires, pid, stop) && WeightOf(weight, pid) > 0
    ensures pid != 0 ==>
      forall p :: Eligible(header, ext, expires, p, start) ==> WeightOf(weight, p) <= WeightOf(weight, pid)
  {
    hide Eligible;
    var winners :| Candidates(winners, header, ext, expires, start, stop) && Chosen(pid, winners, weight);
    EligibleHasPeriod(header, ext, expires, 0, stop);
    NoChoiceExactly(pid, winners, weight);
  }

  /** There is a choice whenever a partner of positive weight may be visited all along, as long
      as all weights together fit into 32 bits. */
  lemma SomeoneSelected(pid: Pid, header: Text, ext: int, weight: map<Pid, Int32>, expires: map<Pid, Int32>, start: int, stop: int, p: Pid)
    requires NoNegative(weight) && 0 !in expires && Total(expires.Keys, weight) < 0x1_0000_0000
    requires Selected(pid, header, ext, weight, expires, start, stop)
    requires Eligible(header, ext, expires, p, start) && WeightOf(weight, p) > 0
    ensures pid != 0
  {
    hide Eligible;
    var winners :| Candidates(winners, header, ext, expires, start, stop) && Chosen(pid, winners, weight);
    forall q | q in winners ensures q in expires { EligibleHasPeriod(header, ext, expires, q, stop); }
    NoChoiceExactly(pid, winners, weight);
    TotalPositive(winners, weight);
    TotalOfPart(winners, expires.Keys, weight);
  }

  lemma {:induction false} TotalOfPart(part: set<Pid>, pids: set<Pid>, weight: map<Pid, Int32>)
    requires NoNegative(weight) && part <= pids
    ensures Total(part, weight) <= Total(pids, weight)
    decreases |part|
  {
    if part == {} {
      TotalPositive(pids, weight);
    } else {
      var p: Pid :| p in part;
      TotalWithout(part, weight, p);
      TotalWithout(pids, weight, p);
      TotalOfPart(part - {p}, pids - {p}, weight);
    }
  }

  /** Four weights of 2^30 add up to zero in 32 bits: no partner is chosen, though each may be. */
  lemma WeightsVanish()
    ensures var weight := map[1 as Pid := 0x4000_0000 as Int32, 2 := 0x4000_0000, 3 := 0x4000_0000, 4 := 0x4000_0000];
      NoNegative(weight) && Total({1, 2, 3, 4}, weight) == 0x1_0000_0000
      && forall pid: Pid :: Chosen(pid, {1, 2, 3, 4}, weight) ==> pid == 0
  {
    var weight := map[1 as Pid := 0x4000_0000 as Int32, 2 := 0x4000_0000, 3 := 0x4000_0000, 4 := 0x4000_0000];
    var one: set<Pid>, two: set<Pid>, three: set<Pid>, four: set<Pid> := {4}, {3, 4}, {2, 3, 4}, {1, 2, 3, 4};
    TotalWithout(four, weight, 1);
    TotalWithout(three, weight, 2);
    TotalWithout(two, weight, 3);
    TotalWithout(one, weight, 4);
    assert four - {1} == three && three - {2} == two && two - {3} == one && one - {4} == {};
  }

  lemma SomeCandidates(header: Text, ext: int, expires: map<Pid, Int32>, now: int)
    ensures Candidates((set p | p in expires.Keys && Eligible(header, ext, expires, p, now)), header, ext, expires, now, now)
  {
    hide Lookup, Atoi, Wrapped;
  }

  lemma EligibleHasPeriod(header: Text, ext: int, expires: map<Pid, Int32>, pid: Pid, now: int)
    ensures Eligible(header, ext, expires, pid, now) ==> pid in expires
  {
  }

  // ---------------------------------------------------------------- the handler

  class Clock {
    var now: Time

    /** The time, which never runs backwards. */
    method Read() returns (t: Time)
      modifies this
      ensures t == now && old(now) <= now
    {
      t :| now <= t;
      now := t;
    }
  }

  datatype Outcome = Normal(error: int, cookie: Option<Text>) | Redirect(url: Text, cookie: Option<Text>)

  const TENCENT := 2
  const RETURNED_TO_TENCENT := 12
  const NO_URL := 5

  /** The visit goes back to the partner that sent it, and no time is kept. */
  predicate Returned(ext: int, pid: Pid, self: Text) {
    ext == TENCENT && pid == RETURNED_TO_TENCENT && self != []
  }

  class Mapping {
    var ext: int
    var cookieHeader: Text
    var partner: Partner
    var pid: Pid
    var url: Text
    const clock: Clock

    constructor (ext: int, cookieHeader: Text, partner: Partner, clock: Clock)
      ensures this.ext == ext && this.cookieHeader == cookieHeader && this.partner == partner && this.clock == clock
      ensures pid == 0 && url == []
    {
      this.ext, this.cookieHeader, this.partner, this.clock := ext, cookieHeader, partner, clock;
      pid, url := 0, [];
    }

    method CheckCandidate(candidate: Pid, expire: Int32) returns (wins: bool)
      modifies clock
      ensures old(clock.now) <= clock.now
      ensures var expires := map[candidate := expire];
              && (Eligible(cookieHeader, ext, expires, candidate, old(clock.now)) ==> wins)
              && (wins ==> Eligible(cookieHeader, ext, expires, candidate, clock.now))
    {
      hide Lookup, Atoi, Wrapped;
      var value := GetCookie(cookieHeader, TimeKey(candidate));
      if value == [] {
        wins := !((ext == 6 && candidate == 4) || (ext == 4 && candidate == 7));
      } else {
        var t := clock.Read();
        wins := Wrapped(Atoi(value) + expire) < t;
      }
    }

    /** What time does to the candidates found so far, and to the one just checked. */
    lemma Passed(expires: map<Pid, Int32>, winners: set<Pid>, candidate: Pid, before: int, wins: bool)
      requires candidate in expires && before <= clock.now
      requires forall p <- winners :: Eligible(cookieHeader, ext, expires, p, before)
      requires Eligible(cookieHeader, ext, map[candidate := expires[candidate]], candidate, before) ==> wins
      requires wins ==> Eligible(cookieHeader, ext, map[candidate := expires[candidate]], candidate, clock.now)
      ensures forall p <- winners :: Eligible(cookieHeader, ext, expires, p, clock.now)
      ensures wins ==> Eligible(cookieHeader, ext, expires, candidate, clock.now)
      ensures forall t: int :: t <= before && Eligible(cookieHeader, ext, expires, candidate, t) ==> wins
    {
      hide Eligible;
      forall p | p in winners ensures Eligible(cookieHeader, ext, expires, p, clock.now) {
        EligibleLater(cookieHeader, ext, expires, p, before, clock.now);
      }
      EligibleAlone(cookieHeader, ext, expires, candidate, before);
      EligibleAlone(cookieHeader, ext, expires, candidate, clock.now);
      forall t: int | t <= before && Eligible(cookieHeader, ext, expires, candidate, t) ensures wins {
        EligibleLater(cookieHeader, ext, expires, candidate, t, before);
      }
    }

    method FindWinners(weight: map<Pid, Int32>, expires: map<Pid, Int32>) returns (winners: map<Pid, Int32>)
      modifies clock
      ensures old(clock.now) <= clock.now
      ensures Candidates(winners.Keys, cookieHeader, ext, expires, old(clock.now), clock.now)
      ensures forall p <- winners :: winners[p] == WeightOf(weight, p)
    {
      hide Lookup, Atoi, Eligible;
      winners := map[];
      var todo := expires.Keys;
      while todo != {}
        invariant todo <= expires.Keys && old(clock.now) <= clock.now
        invariant forall p <- winners :: winners[p] == WeightOf(weight, p)
        invariant forall p <- winners :: Eligible(cookieHeader, ext, expires, p, clock.now)
        invariant forall p <- expires.Keys - todo :: Eligible(cookieHeader, ext, expires, p, old(clock.now)) ==> p in winners
        decreases |todo|
      {
        var candidate: Pid :| candidate in todo;
        todo := todo - {candidate};
        ghost var before := clock.now;
        var wins := CheckCandidate(candidate, expires[candidate]);
        Passed(expires, winners.Keys, candidate, before, wins);
        if wins { winners := winners[candidate := if candidate in weight then weight[candidate] else 0]; }
      }
      forall p | Eligible(cookieHeader, ext, expires, p, old(clock.now)) ensures p in winners {
        EligibleHasPeriod(cookieHeader, ext, expires, p, old(clock.now));
      }
    }

    method MaxAndSum(winners: map<Pid, Int32>, ghost weight: map<Pid, Int32>) returns (maxWeight: Int32, sum: Int32)
      requires forall p <- winners :: winners[p] == WeightOf(weight, p)
      ensures sum == Wrapped(Total(winners.Keys, weight)) && maxWeight >= 0
      ensures forall p <- winners :: winners[p] <= maxWeight
      ensures maxWeight > 0 ==> exists p <- winners :: winners[p] == maxWeight
    {
      hide Wrapped;
      maxWeight, sum := 0, 0;
      var todo := winners.Keys;
      while todo != {}
        invariant todo <= winners.Keys && maxWeight >= 0
        invariant Wrapped(sum + Total(todo, weight)) == Wrapped(Total(winners.Keys, weight))
        invariant forall p <- winners.Keys - todo :: winners[p] <= maxWeight
        invariant maxWeight > 0 ==> exists p <- winners :: winners[p] == maxWeight
        decreases |todo|
      {
        var w: Pid :| w in todo;
        TotalWithout(todo, weight, w);
        todo := todo - {w};
        WrappedAdd(sum + winners[w], Total(todo, weight));
        sum := Wrapped(sum + winners[w]);
        if winners[w] > maxWeight { maxWeight := winners[w]; }
      }
      WrappedSame(sum);
    }

    method Heaviest(winners: map<Pid, Int32>, maxWeight: Int32) returns (pids: seq<Pid>)
      ensures forall p :: p in pids <==> p in winners && winners[p] == maxWeight
    {
      pids := [];
      var todo := winners.Keys;
      while todo != {}
        invariant todo <= winners.Keys
        invariant forall p :: p in pids <==> p in winners.Keys - todo && winners[p] == maxWeight
        decreases |todo|
      {
        var w: Pid :| w in todo;
        todo := todo - {w};
        if winners[w] == maxWeight { pids := pids + [w]; }
      }
    }

    /** A heaviest partner that may be visited; a tie is broken at random. */
    method CheckValidExpire(weight: map<Pid, Int32>, expires: map<Pid, Int32>) returns (r: Pid)
      modifies clock
      ensures old(clock.now) <= clock.now
      ensures Selected(r, cookieHeader, ext, weight, expires, old(clock.now), clock.now)
    {
      hide Lookup, Atoi, Eligible, Candidates;
      if |weight| == 0 {
        SomeCandidates(cookieHeader, ext, expires, clock.now);
        return 0;
      }
      var winners := FindWinners(weight, expires);
      r := Draw(winners, weight);
    }

    method Draw(winners: map<Pid, Int32>, ghost weight: map<Pid, Int32>) returns (r: Pid)
      requires weight != map[] && forall p <- winners :: winners[p] == WeightOf(weight, p)
      ensures Chosen(r, winners.Keys, weight)
    {
      if |winners| == 0 { return 0; }
      var maxWeight, sum := MaxAndSum(winners, weight);
      var lastPid: Pid := 0;
      var maxWeightPids := Heaviest(winners, maxWeight);
      if |maxWeightPids| > 0 {
        var i: nat :| i < |maxWeightPids|;
        lastPid := maxWeightPids[i];
      }
      r := if lastPid == 0 || sum == 0 then 0 else lastPid;
    }

    method DoFilter()
      modifies this, clock
      ensures old(clock.now) <= clock.now
      ensures Selected(pid, cookieHeader, ext, partner.weight, partner.expires, old(clock.now), clock.now)
      ensures url == if pid != 0 && pid in partner.url then partner.url[pid] else old(url)
      ensures ext == old(ext) && cookieHeader == old(cookieHeader) && partner == old(partner)
    {
      hide Selected;
      pid := CheckValidExpire(partner.weight, partner.expires);
      if pid == 0 { return; }
      if pid in partner.url { url := partner.url[pid]; }
    }

    /** The request from the choice on. The attributes of the cookie hold its lifetime;
        `fill` puts the visitor's data into an address, and `returnAddress` is where the
        partner that sent the visit wants it back. */
    method Handle(returnAddress: Text, attributes: Text, fill: Text -> Text) returns (outcome: Outcome)
      requires (attributes == [] || attributes[0] == SEMICOLON) && url == []
      modifies this, clock
      ensures old(clock.now) <= clock.now && cookieHeader == old(cookieHeader) && ext == old(ext) && partner == old(partner)
      ensures exists stop: Time ::
                && old(clock.now) <= stop <= clock.now
                && Selected(pid, cookieHeader, ext, partner.weight, partner.expires, old(clock.now), stop)
      ensures outcome.cookie ==
        if pid == 0 || Returned(ext, pid, partner.self) then None
        else Some(SetCookie(Cookie(TimeKey(pid), DecimalText(clock.now)), attributes))
      ensures Returned(ext, pid, partner.self) ==> outcome == Redirect(fill(returnAddress), None)
      ensures outcome.Redirect? && !Returned(ext, pid, partner.self) ==>
        outcome.url == fill(if pid == 0 then partner.self else if pid in partner.url then partner.url[pid] else [])
      ensures outcome.Normal? <==>
                && !Returned(ext, pid, partner.self)
                && (if pid == 0 then partner.self == [] else pid !in partner.url || partner.url[pid] == [])
      ensures outcome.Normal? ==> outcome.error == if pid == 0 then 0 else NO_URL
    {
      hide Selected, Lookup, DecimalText;
      DoFilter();
      if ext == TENCENT && pid == RETURNED_TO_TENCENT && |partner.self| > 0 {
        return Redirect(fill(returnAddress), None);
      }
      if pid == 0 {
        return if |partner.self| > 0 then Redirect(fill(partner.self), None) else Normal(0, None);
      }
      ghost var stop := clock.now;
      var t := clock.Read();
      var cookie := Some(SetCookie(Cookie(TimeKey(pid), DecimalText(t)), attributes));
      outcome := if |url| == 0 then Normal(NO_URL, cookie) else Redirect(fill(url), cookie);
    }
  }
}
