/**
 Translating the v2 events of a simulated transaction to v1, in place: the
 indexer gives each event's key and the key's next sequence number, and a count
 per key spaces out several events of one key.
 */
module EventTranslation {
  datatype EventV1 = EventV1(key: nat, sequenceNumber: nat, data: seq<nat>)

  datatype Event = V1(v1: EventV1) | V2(payload: seq<nat>)

  /** What the indexer says of a v2 event: an error, nothing to translate, or the v1 event. */
  datatype Answer = Failed | Untranslated | As(v1: EventV1)

  /** `present`: the indexer exists.  `accepts`: the size of a v1 event is computable. */
  datatype Indexer = Indexer(present: bool, translate: seq<nat> -> Answer, accepts: EventV1 -> bool) {

    predicate Translates(e: Event) {
      e.V2? && translate(e.payload).As?
    }

    function Key(e: Event): nat
      requires Translates(e)
    {
      translate(e.payload).v1.key
    }

    /** How many of the first i events translate to the key. */
    function Rank(events: seq<Event>, i: nat, key: nat): nat
      requires i <= |events|
    {
      if i == 0 then 0
      else Rank(events, i - 1, key) + if Translates(events[i - 1]) && Key(events[i - 1]) == key then 1 else 0
    }

    function Adjusted(events: seq<Event>, i: nat): EventV1
      requires i < |events| && Translates(events[i])
    {
      var v1 := translate(events[i].payload).v1;
      v1.(sequenceNumber := v1.sequenceNumber + Rank(events, i, v1.key))
    }

    /** What event i becomes. */
    function Result(events: seq<Event>, i: nat): Event
      requires i < |events|
    {
      if Translates(events[i]) then V1(Adjusted(events, i)) else events[i]
    }

    predicate Fails(events: seq<Event>, i: nat)
      requires i < |events|
    {
      events[i].V2? && (!present || translate(events[i].payload).Failed? ||
        (Translates(events[i]) && !accepts(Adjusted(events, i))))
    }
  }

  /** The counts the loop keeps are the ranks of the keys seen so far. */
  ghost predicate CountsAre(x: Indexer, events: seq<Event>, i: nat, counts: map<nat, nat>)
    requires i <= |events|
  {
    forall key: nat :: (if key in counts then counts[key] else 0) == x.Rank(events, i, key)
  }

  /**
   Events before the first that fails are translated in place, and that one and the
   later ones are left alone; with no failure, all are translated.
   */
  method TranslateForSimulation(x: Indexer, events: array<Event>) returns (ok: bool, ghost n: nat)
    modifies events
    ensures n <= events.Length && (ok <==> n == events.Length)
    ensures forall i :: 0 <= i < n ==> !x.Fails(old(events[..]), i) && events[i] == x.Result(old(events[..]), i)
    ensures forall i :: n <= i < events.Length ==> events[i] == old(events[i])
    ensures !ok ==> x.Fails(old(events[..]), n)
  {
    ghost var before := events[..];
    var counts: map<nat, nat> := map[];
    var i := 0;
    while i < events.Length
      invariant 0 <= i <= events.Length
      invariant forall j :: 0 <= j < i ==> !x.Fails(before, j) && events[j] == x.Result(before, j)
      invariant forall j :: i <= j < events.Length ==> events[j] == before[j]
      invariant CountsAre(x, before, i, counts)
    {
      if events[i].V2? {
        if !x.present {
          return false, i;
        }
        var answer := x.translate(events[i].payload);
        if answer.Failed? {
          return false, i;
        }
        if answer.As? {
          var v1 := answer.v1;
          var count := if v1.key in counts then counts[v1.key] else 0;
          var adjusted := v1.(sequenceNumber := v1.sequenceNumber + count);
          if !x.accepts(adjusted) {
            return false, i;
          }
          events[i] := V1(adjusted);
          counts := counts[v1.key := count + 1];
        }
      }
      i := i + 1;
    }
    return true, i;
  }

  // ---- Sequence numbers ----

  lemma {:induction false} RankMonotone(x: Indexer, events: seq<Event>, i: nat, j: nat, key: nat)
    requires i <= j <= |events|
    ensures x.Rank(events, i, key) <= x.Rank(events, j, key)
    ensures (forall m :: i <= m < j ==> !(x.Translates(events[m]) && x.Key(events[m]) == key)) <==>
      x.Rank(events, i, key) == x.Rank(events, j, key)
    decreases j
  {
    if i < j {
      RankMonotone(x, events, i, j - 1, key);
    }
  }

  /** The earlier events that translate to a key. */
  ghost function Earlier(x: Indexer, events: seq<Event>, i: nat, key: nat): set<nat>
    requires i <= |events|
  {
    set m: nat | m < i && x.Translates(events[m]) && x.Key(events[m]) == key
  }

  lemma {:induction false} RankCounts(x: Indexer, events: seq<Event>, i: nat, key: nat)
    requires i <= |events|
    ensures x.Rank(events, i, key) == |Earlier(x, events, i, key)|
  {
    if i > 0 {
      RankCounts(x, events, i - 1, key);
      assert Earlier(x, events, i, key) == Earlier(x, events, i - 1, key) +
        if x.Translates(events[i - 1]) && x.Key(events[i - 1]) == key then {i - 1} else {};
    }
  }

  /**
   An event becomes the indexer's v1 event with its number raised by the number of
   earlier events of its key, and fails exactly if the indexer is absent or fails, or
   that v1 event is not accepted; v1 events and untranslated ones stay as they are.
   */
  lemma TranslationIs(x: Indexer, events: seq<Event>, i: nat)
    requires i < |events|
    ensures match events[i]
      case V1(_) => !x.Fails(events, i) && x.Result(events, i) == events[i]
      case V2(payload) =>
        match x.translate(payload)
        case Failed => x.Fails(events, i)
        case Untranslated => (x.Fails(events, i) <==> !x.present) && x.Result(events, i) == events[i]
        case As(v1) =>
          var number := v1.sequenceNumber + |Earlier(x, events, i, v1.key)|;
          && x.Result(events, i) == V1(EventV1(v1.key, number, v1.data))
          && (x.Fails(events, i) <==> !x.present || !x.accepts(EventV1(v1.key, number, v1.data)))
  {
    if x.Translates(events[i]) {
      RankCounts(x, events, i, x.Key(events[i]));
    }
  }

  /** The first event of a key gets the indexer's own number. */
  lemma FirstKeepsNumber(x: Indexer, events: seq<Event>, i: nat)
    requires i < |events| && x.Translates(events[i]) && forall m: nat :: m < i ==> !SameKey(x, events, m, i)
    ensures x.Adjusted(events, i) == x.translate(events[i].payload).v1
  {
    RankCounts(x, events, i, x.Key(events[i]));
    forall m: nat | m < i ensures m !in Earlier(x, events, i, x.Key(events[i])) {
      assert !SameKey(x, events, m, i);
    }
    assert Earlier(x, events, i, x.Key(events[i])) == {};
  }

  /** Two events that translate to one key. */
  predicate SameKey(x: Indexer, events: seq<Event>, i: nat, j: nat) {
    i < j < |events| && x.Translates(events[i]) && x.Translates(events[j]) && x.Key(events[i]) == x.Key(events[j])
  }

  function Base(x: Indexer, e: Event): nat
    requires x.Translates(e)
  {
    x.translate(e.payload).v1.sequenceNumber
  }

  /** Neighbouring events of a key get consecutive numbers exactly when the indexer names one next number for both. */
  lemma Consecutive(x: Indexer, events: seq<Event>, i: nat, j: nat)
    requires SameKey(x, events, i, j)
    requires forall m :: i < m < j ==> !SameKey(x, events, i, m)
    ensures x.Adjusted(events, j).sequenceNumber == x.Adjusted(events, i).sequenceNumber + 1 <==>
      Base(x, events[i]) == Base(x, events[j])
  {
    RankMonotone(x, events, i + 1, j, x.Key(events[i]));
    forall m | i + 1 <= m < j ensures !(x.Translates(events[m]) && x.Key(events[m]) == x.Key(events[i])) {
      assert !SameKey(x, events, i, m);
    }
  }

  /** With one next number per key, later translated events of the key have greater numbers. */
  lemma NumbersIncrease(x: Indexer, events: seq<Event>, i: nat, j: nat)
    requires SameKey(x, events, i, j) && Base(x, events[i]) == Base(x, events[j])
    ensures x.Adjusted(events, i).sequenceNumber < x.Adjusted(events, j).sequenceNumber
  {
    RankMonotone(x, events, i + 1, j, x.Key(events[i]));
  }
}
