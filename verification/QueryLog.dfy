/** When the receiver of the query log scrapes which interval of server time, in the seconds of a uint32. As long as
    no sum wraps, each second is scraped once; what an attempt does when one wraps is stated as well. */
module QueryLog {

  const TWO_TO_32: nat := 0x1_0000_0000

  newtype uint32 = x: int | 0 <= x < TWO_TO_32

  /** Addition and subtraction wrap around. */
  function Add(a: uint32, b: uint32): uint32 { ((a as int + b as int) % TWO_TO_32) as uint32 }

  function Sub(a: uint32, b: uint32): uint32 { ((a as int - b as int) % TWO_TO_32) as uint32 }

  lemma WrapsOnce(a: uint32, b: uint32)
    ensures Add(a, b) as int == a as int + b as int - if a as int + b as int < TWO_TO_32 then 0 else TWO_TO_32
    ensures b <= a ==> Sub(a, b) as int == a as int - b as int
  {
  }

  /** A scrape that was pushed: its interval [from, to) and the server time at which it was made. */
  datatype Scrape = Scrape(from: uint32, to: uint32, at: uint32)

  /** What the outside world answers to one attempt: whether there is a connection, the server's time, and whether
      reading and pushing the rows works. */
  datatype World = NoConnection | NoServerTime | Answers(now: uint32, pushes: bool)

  /** A scrape of one interval, not made before the interval's end and the delay had passed. */
  predicate Timely(s: Scrape, interval: uint32, delay: uint32) {
    s.to as int == s.from as int + interval as int && s.to as int + delay as int <= s.at as int
  }

  /** Timely scrapes that follow one another without gap or overlap. */
  ghost predicate Consecutive(pushed: seq<Scrape>, interval: uint32, delay: uint32) {
    && (forall i :: 0 <= i < |pushed| ==> Timely(pushed[i], interval, delay))
    && forall i :: 0 <= i < |pushed| - 1 ==> pushed[i].to == pushed[i + 1].from
  }

  /** `start` is the first of these server times that is not 0, or one of the 0s before it. */
  ghost predicate FirstKnown(start: uint32, times: seq<uint32>) {
    exists k :: 0 <= k < |times| && times[k] == start && forall j :: 0 <= j < k ==> times[j] == 0
  }

  /** The server times among the answers. */
  function Times(worlds: seq<World>): seq<uint32> {
    if worlds == [] then []
    else Times(worlds[..|worlds| - 1])
         + if worlds[|worlds| - 1].Answers? then [worlds[|worlds| - 1].now] else []
  }

  lemma StillFirst(start: uint32, times: seq<uint32>, now: uint32)
    ensures FirstKnown(start, times) ==> FirstKnown(start, times + [now])
    ensures (forall j :: 0 <= j < |times| ==> times[j] == 0) ==> FirstKnown(now, times + [now])
  {
    var more := times + [now];
    if FirstKnown(start, times) {
      var k :| 0 <= k < |times| && times[k] == start && forall j :: 0 <= j < k ==> times[j] == 0;
      assert more[k] == start;
    }
    if forall j :: 0 <= j < |times| ==> times[j] == 0 {
      assert more[|times|] == now;
    }
  }

  /** The end of the interval and the delay after it are still within 32 bits. */
  predicate Fits(from: uint32, interval: uint32, delay: uint32) {
    from as int + interval as int + delay as int < TWO_TO_32
  }

  class Receiver {
    const scrapeIntervalSeconds: uint32
    const scrapeDelaySeconds: uint32
    var nextScrapeIntervalStartTs: uint32  // 0 while it is not known
    ghost var pushed: seq<Scrape>
    ghost var answered: seq<uint32>        // the server times seen so far

    /** The first interval starts when the server's time was first known. */
    ghost predicate Begun()
      reads this
    {
      if pushed != [] then FirstKnown(pushed[0].from, answered)
      else if nextScrapeIntervalStartTs != 0 then FirstKnown(nextScrapeIntervalStartTs, answered)
      else forall j :: 0 <= j < |answered| ==> answered[j] == 0
    }

    /** Each scrape was made when the wrapped sums said so, and the next one started at its end, unless that is 0. */
    ghost predicate Valid()
      reads this
    {
      && Begun()
      && (forall i :: 0 <= i < |pushed| ==>
            pushed[i].to == Add(pushed[i].from, scrapeIntervalSeconds)
              && Add(pushed[i].to, scrapeDelaySeconds) <= pushed[i].at)
      && (forall i :: 0 <= i < |pushed| - 1 ==> pushed[i].to != 0 ==> pushed[i].to == pushed[i + 1].from)
      && (pushed != [] && pushed[|pushed| - 1].to != 0 ==> nextScrapeIntervalStartTs == pushed[|pushed| - 1].to)
    }

    constructor (interval: uint32, delay: uint32)
      ensures Valid() && scrapeIntervalSeconds == interval && scrapeDelaySeconds == delay
      ensures nextScrapeIntervalStartTs == 0 && pushed == [] && answered == []
    {
      scrapeIntervalSeconds, scrapeDelaySeconds, nextScrapeIntervalStartTs := interval, delay, 0;
      pushed, answered := [], [];
    }

    /** When the interval from `start` may be scraped, as the receiver computes it. */
    function ReadyFrom(start: uint32): uint32 { Add(Add(start, scrapeIntervalSeconds), scrapeDelaySeconds) }

    /** The first attempt that knows the server's time starts from it. */
    function Start(next: uint32, now: uint32): uint32 { if next == 0 then now else next }

    predicate Scrapes(next: uint32, world: World) { world.Answers? && world.now >= ReadyFrom(Start(next, world.now)) }

    /** One attempt; `err` is the error returned. */
    method ScrapeQueryLogIfReady(world: World) returns (waitSeconds: uint32, err: bool)
      requires Valid()
      modifies this
      ensures Valid()
      ensures answered == old(answered) + if world.Answers? then [world.now] else []
      ensures err <==> !world.Answers? || (Scrapes(old(nextScrapeIntervalStartTs), world) && !world.pushes)
      ensures world.Answers? ==>
                var start := if old(nextScrapeIntervalStartTs) != 0 then old(nextScrapeIntervalStartTs) else world.now;
                (pushed != old(pushed) <==>
                  world.pushes && Add(Add(start, scrapeIntervalSeconds), scrapeDelaySeconds) <= world.now)
      ensures err ==> waitSeconds == scrapeIntervalSeconds
      ensures !world.Answers? ==> nextScrapeIntervalStartTs == old(nextScrapeIntervalStartTs) && pushed == old(pushed)
      ensures world.Answers? ==>
                var start := Start(old(nextScrapeIntervalStartTs), world.now);
                if Scrapes(old(nextScrapeIntervalStartTs), world) && world.pushes
                then nextScrapeIntervalStartTs == Add(start, scrapeIntervalSeconds)
                     && pushed == old(pushed) + [Scrape(start, Add(start, scrapeIntervalSeconds), world.now)]
                else nextScrapeIntervalStartTs == start && pushed == old(pushed)
      ensures !err ==>
                world.now as int + waitSeconds as int == Later(world.now, ReadyFrom(nextScrapeIntervalStartTs)) as int
    {
      hide Add, Sub, FirstKnown;
      if world.NoConnection? || world.NoServerTime? {
        return scrapeIntervalSeconds, true;
      }
      var serverTsNow := world.now;
      Known(serverTsNow);
      answered := answered + [serverTsNow];
      if nextScrapeIntervalStartTs == 0 {
        nextScrapeIntervalStartTs := serverTsNow;
      }
      var scrapeIntervalEndTs := Add(nextScrapeIntervalStartTs, scrapeIntervalSeconds);
      var minServerTs := Add(scrapeIntervalEndTs, scrapeDelaySeconds);
      if serverTsNow < minServerTs {
        WrapsOnce(minServerTs, serverTsNow);
        return Sub(minServerTs, serverTsNow), false;
      }
      if !world.pushes {
        return scrapeIntervalSeconds, true;
      }
      pushed := pushed + [Scrape(nextScrapeIntervalStartTs, scrapeIntervalEndTs, serverTsNow)];
      nextScrapeIntervalStartTs := scrapeIntervalEndTs;
      var nextMinServerTs := Add(Add(nextScrapeIntervalStartTs, scrapeIntervalSeconds), scrapeDelaySeconds);
      waitSeconds, err := 0, false;
      if nextMinServerTs > serverTsNow {
        WrapsOnce(nextMinServerTs, serverTsNow);
        waitSeconds := Sub(nextMinServerTs, serverTsNow);
      }
    }

    /** Any sequence of attempts, with any server times and failures. The intervals pushed are consecutive exactly
        when none of them, with its delay, leaves 32 bits. */
    method Run(worlds: seq<World>)
      requires Valid()
      modifies this
      ensures Valid() && old(pushed) <= pushed && answered == old(answered) + Times(worlds)
      ensures pushed != [] ==> FirstKnown(pushed[0].from, answered)
      ensures scrapeIntervalSeconds > 0 ==>
                (Consecutive(pushed, scrapeIntervalSeconds, scrapeDelaySeconds) <==>
                 forall s :: s in pushed ==> Fits(s.from, scrapeIntervalSeconds, scrapeDelaySeconds))
    {
      for i := 0 to |worlds|
        invariant Valid() && old(pushed) <= pushed && answered == old(answered) + Times(worlds[..i])
      {
        assert worlds[..i + 1][..i] == worlds[..i];
        var waitSeconds, err := ScrapeQueryLogIfReady(worlds[i]);
      }
      assert worlds[..|worlds|] == worlds;
      if scrapeIntervalSeconds > 0 {
        ConsecutiveIffAllFit();
      }
    }

    /** What the next server time leaves of Begun. */
    lemma Known(now: uint32)
      requires Begun()
      ensures pushed != [] ==> FirstKnown(pushed[0].from, answered + [now])
      ensures pushed == [] ==> FirstKnown(Start(nextScrapeIntervalStartTs, now), answered + [now])
    {
      StillFirst(if pushed != [] then pushed[0].from else nextScrapeIntervalStartTs, answered, now);
    }

    lemma ConsecutiveIffAllFit()
      requires Valid() && scrapeIntervalSeconds > 0
      ensures Consecutive(pushed, scrapeIntervalSeconds, scrapeDelaySeconds) <==>
              forall s :: s in pushed ==> Fits(s.from, scrapeIntervalSeconds, scrapeDelaySeconds)
    {
      hide Add;
      forall s | s in pushed
        ensures Timely(s, scrapeIntervalSeconds, scrapeDelaySeconds) <==>
                  Fits(s.from, scrapeIntervalSeconds, scrapeDelaySeconds)
      {
        TimelyIffFits(s, scrapeIntervalSeconds, scrapeDelaySeconds);
      }
      if forall s :: s in pushed ==> Fits(s.from, scrapeIntervalSeconds, scrapeDelaySeconds) {
        forall i | 0 <= i < |pushed|
          ensures Timely(pushed[i], scrapeIntervalSeconds, scrapeDelaySeconds) && pushed[i].to != 0
        {
          assert pushed[i] in pushed;
        }
      }
    }
  }

  function Later(a: uint32, b: uint32): uint32 { if a > b then a else b }

  /** A scrape that the receiver makes is timely exactly when its interval's end and the delay stay within 32 bits. */
  lemma TimelyIffFits(s: Scrape, interval: uint32, delay: uint32)
    requires s.to == Add(s.from, interval) && Add(s.to, delay) <= s.at
    ensures Timely(s, interval, delay) <==> Fits(s.from, interval, delay)
  {
    hide Add;
    WrapsOnce(s.from, interval);
    WrapsOnce(s.to, delay);
  }

  /** What an attempt does when a sum leaves 32 bits: it takes the interval to be ready 2^32 seconds too early, so it
      scrapes at a server time before the interval's end and delay, and when the end itself wraps, an interval that
      ends before it starts. If the server's time is past the wrapped one already, as it is at the interval's start,
      it does so at once. */
  lemma WrappedAttempt(r: Receiver, world: World)
    requires world.Answers? && r.scrapeDelaySeconds as int + r.scrapeIntervalSeconds as int < TWO_TO_32
    requires var start := r.Start(r.nextScrapeIntervalStartTs, world.now);
             !Fits(start, r.scrapeIntervalSeconds, r.scrapeDelaySeconds)
    ensures var start := r.Start(r.nextScrapeIntervalStartTs, world.now);
            var due := start as int + r.scrapeIntervalSeconds as int + r.scrapeDelaySeconds as int;
            && r.ReadyFrom(start) as int == due - TWO_TO_32 < start as int
            && (r.Scrapes(r.nextScrapeIntervalStartTs, world) <==> due - TWO_TO_32 <= world.now as int)
            && world.now as int < due
            && (Add(start, r.scrapeIntervalSeconds) < start <==>
                  start as int + r.scrapeIntervalSeconds as int >= TWO_TO_32)
            && (world.now >= start ==> r.Scrapes(r.nextScrapeIntervalStartTs, world))
  {
    hide Add;
    var start := r.Start(r.nextScrapeIntervalStartTs, world.now);
    WrapsOnce(start, r.scrapeIntervalSeconds);
    WrapsOnce(Add(start, r.scrapeIntervalSeconds), r.scrapeDelaySeconds);
  }

  /** Every second from the first interval's start up to the next one's is covered by exactly one pushed interval. */
  lemma {:induction false} CoveredOnce(pushed: seq<Scrape>, interval: uint32, delay: uint32, ts: uint32)
    returns (i: nat)
    requires Consecutive(pushed, interval, delay)
    requires pushed != [] && pushed[0].from <= ts < pushed[|pushed| - 1].to
    ensures i < |pushed| && pushed[i].from <= ts < pushed[i].to
    ensures forall k :: 0 <= k < |pushed| && k != i ==> !(pushed[k].from <= ts < pushed[k].to)
  {
    var n := |pushed| - 1;
    if n == 0 {
      i := 0;
    } else if ts < pushed[n - 1].to {
      i := CoveredOnce(pushed[..n], interval, delay, ts);
    } else {
      i := n;
      forall k | 0 <= k < n
        ensures pushed[k].to <= ts
      {
        EndsBefore(pushed, interval, delay, k, n - 1);
      }
    }
  }

  lemma {:induction false} EndsBefore(pushed: seq<Scrape>, interval: uint32, delay: uint32, i: nat, j: nat)
    requires i <= j < |pushed| && Consecutive(pushed, interval, delay)
    ensures pushed[i].to <= pushed[j].to
  {
    if i < j {
      EndsBefore(pushed, interval, delay, i, j - 1);
    }
  }
}
