/** The timing wheel: an array of intrusive doubly linked lists and a rotating cursor. */
module TimeWheel {
  import Countdown

  /** Rounding up, as std::ceil does. */
  function Ceil(x: real): (c: int)
    ensures c as real - 1.0 < x <= c as real
  {
    -(-x).Floor
  }

  /** The number of ticks a timeout asks for: rounded up, then clamped to 1..bucketCount. */
  function TicksFor(timeoutSec: real, tickIntervalSec: real, bucketCount: int): (k: int)
    requires tickIntervalSec > 0.0 && bucketCount >= 1
    ensures 1 <= k <= bucketCount
  {
    var ticks := Ceil(timeoutSec / tickIntervalSec);
    if ticks <= 0 then 1 else if ticks > bucketCount then bucketCount else ticks
  }

  lemma QuotientBound(a: real, b: real, c: real)
    requires b > 0.0
    ensures a / b <= c <==> a <= c * b
  {
  }

  /** Tick k comes no earlier than the timeout. */
  predicate Covers(timeoutSec: real, interval: real, k: int) {
    timeoutSec <= k as real * interval
  }

  /** Tick k is the first one that comes no earlier than the timeout, or the last tick of one turn when
      the whole turn is too early. */
  ghost predicate FirstTick(timeoutSec: real, interval: real, n: int, k: int) {
    && 1 <= k <= n
    && (forall j :: 1 <= j < k ==> !Covers(timeoutSec, interval, j))
    && (Covers(timeoutSec, interval, k) || k == n)
  }

  /** What the rounding and the clamp mean: this tick and no other. */
  lemma TicksForIsFirstTick(timeoutSec: real, interval: real, n: int)
    requires interval > 0.0 && n >= 1
    ensures forall k :: FirstTick(timeoutSec, interval, n, k) <==> k == TicksFor(timeoutSec, interval, n)
  {
    var c, t := Ceil(timeoutSec / interval), TicksFor(timeoutSec, interval, n);
    forall k: int
      ensures Covers(timeoutSec, interval, k) <==> c <= k
    {
      QuotientBound(timeoutSec, interval, k as real);
    }
    hide Covers, Ceil;
    assert Covers(timeoutSec, interval, t) || t == n;
  }

  /** Over a whole history of the wheel's countdown: an entry set to its timeout and left alone since fires
      at the first tick that comes no earlier than the timeout; at the n-th one, and no earlier, when the
      timeout lies beyond a full turn of n buckets. */
  lemma {:induction false} FiresOnTime<K>(left: map<K, nat>, ops: seq<Countdown.Op<K>>, key: K, s: nat, i: nat,
                                          timeoutSec: real, interval: real, n: int)
    requires interval > 0.0 && n >= 1 && s < i < |ops|
    requires ops[s] == Countdown.Set(key, TicksFor(timeoutSec, interval, n))
    requires Countdown.Untouched(ops[s + 1..], key)
    ensures Countdown.FiresAt(left, ops, key, i)
            <==> ops[i] == Countdown.Tick && FirstTick(timeoutSec, interval, n, Countdown.Ticks(ops[s + 1..i]) + 1)
    ensures !Covers(timeoutSec, interval, n) ==>
              (Countdown.FiresAt(left, ops, key, i)
               <==> ops[i] == Countdown.Tick && Countdown.Ticks(ops[s + 1..i]) == n - 1)
  {
    Countdown.FiresAtTickAfterSet(left, ops, key, s, i);
    TicksForIsFirstTick(timeoutSec, interval, n);
    if !Covers(timeoutSec, interval, n) { BeyondATurn(timeoutSec, interval, n); }
    hide TicksFor, FirstTick, Countdown.FiresAt;
  }

  /** A timeout beyond a full turn asks for the full turn. */
  lemma BeyondATurn(timeoutSec: real, interval: real, n: int)
    requires interval > 0.0 && n >= 1 && !Covers(timeoutSec, interval, n)
    ensures TicksFor(timeoutSec, interval, n) == n
  {
    TicksForIsFirstTick(timeoutSec, interval, n);
    forall j | 1 <= j < n ensures !Covers(timeoutSec, interval, j) {
      if Covers(timeoutSec, interval, j) { LaterCovers(timeoutSec, interval, j, n); }
    }
    hide TicksFor, Covers;
    assert FirstTick(timeoutSec, interval, n, n);
  }

  lemma LaterCovers(timeoutSec: real, interval: real, j: int, k: int)
    requires interval > 0.0 && j <= k && Covers(timeoutSec, interval, j)
    ensures Covers(timeoutSec, interval, k)
  {
    assert (k - j) as real * interval >= 0.0;
  }

  /** Ticks until the cursor reaches `bucket`. The cursor's own bucket is a whole turn away. */
  function TicksUntil(bucket: int, cursor: int, n: int): int {
    if bucket > cursor then bucket - cursor else bucket - cursor + n
  }

  lemma TicksUntilTarget(cursor: int, k: int, n: int)
    requires 0 <= cursor < n && 1 <= k <= n
    ensures 0 <= (cursor + k) % n < n
    ensures TicksUntil((cursor + k) % n, cursor, n) == k
  {
  }

  lemma ModOnce(x: int, n: int)
    requires 0 <= x < n
    ensures x % n == x && (x + n) % n == x
  {
  }

  lemma TicksUntilAdvance(bucket: int, cursor: int, n: int)
    requires 0 <= cursor < n && 0 <= bucket < n
    ensures 0 <= (cursor + 1) % n < n
    ensures TicksUntil(bucket, cursor, n) == 1 <==> bucket == (cursor + 1) % n
    ensures bucket != (cursor + 1) % n
            ==> TicksUntil(bucket, (cursor + 1) % n, n) == TicksUntil(bucket, cursor, n) - 1
  {
    if cursor + 1 == n { ModOnce(0, n); } else { ModOnce(cursor + 1, n); }
  }

  /** The ticks left of every key, given the bucket each one sits in. */
  ghost function TicksLeft<K>(bucketOf: map<K, int>, cursor: int, n: int): map<K, nat>
    requires 0 <= cursor < n && forall k <- bucketOf :: 0 <= bucketOf[k] < n
  {
    map k | k in bucketOf :: TicksUntil(bucketOf[k], cursor, n)
  }

  /** Moving one key into the bucket `ticks` ahead of the cursor gives it that many ticks. */
  lemma TicksLeftSet<K>(bucketOf: map<K, int>, cursor: int, n: int, key: K, ticks: int)
    requires 0 <= cursor < n && forall k <- bucketOf :: 0 <= bucketOf[k] < n
    requires 1 <= ticks <= n
    ensures 0 <= (cursor + ticks) % n < n
    ensures TicksLeft(bucketOf[key := (cursor + ticks) % n], cursor, n)
            == Countdown.Step(TicksLeft(bucketOf, cursor, n), Countdown.Set(key, ticks))
  {
    TicksUntilTarget(cursor, ticks, n);
  }

  lemma SetGives<K>(left: map<K, nat>, key: K, ticks: nat)
    ensures key in Countdown.Step(left, Countdown.Set(key, ticks))
    ensures Countdown.Step(left, Countdown.Set(key, ticks))[key] == ticks
  {
  }

  /** Emptying the next bucket while advancing the cursor is one tick of the countdown, and the
      keys in that bucket are exactly those that were due. */
  lemma TicksLeftTick<K>(bucketOf: map<K, int>, cursor: int, n: int, expired: set<K>)
    requires 0 <= cursor < n && forall k <- bucketOf :: 0 <= bucketOf[k] < n
    requires expired == set k | k in bucketOf && bucketOf[k] == (cursor + 1) % n
    ensures 0 <= (cursor + 1) % n < n
    ensures TicksLeft(bucketOf - expired, (cursor + 1) % n, n)
            == Countdown.Step(TicksLeft(bucketOf, cursor, n), Countdown.Tick)
    ensures expired == Countdown.Due(TicksLeft(bucketOf, cursor, n))
  {
    TicksUntilAdvance(0, cursor, n);
    var left := TicksLeft(bucketOf, cursor, n);
    forall k | k in bucketOf
      ensures k in expired <==> left[k] <= 1
      ensures k !in expired ==> TicksUntil(bucketOf[k], (cursor + 1) % n, n) == left[k] - 1
    {
      TicksUntilAdvance(bucketOf[k], cursor, n);
    }
  }

  /** `callback` is what the closure captured; its owner is the same object. */
  class Entry<T(==)> {
    var bucketIndex: int
    const timeoutSec: real
    const callback: T
    var prev: Entry?<T>
    var next: Entry?<T>

    constructor (timeoutSec: real, callback: T)
      ensures this.timeoutSec == timeoutSec && this.callback == callback
      ensures bucketIndex == -1 && prev == null && next == null
    {
      this.timeoutSec, this.callback := timeoutSec, callback;
      bucketIndex, prev, next := -1, null, null;
    }
  }

  /** The doubly linked list that starts at `head` consists of exactly the nodes of `nodes`, in
      order, without repetition, and every node names bucket `b`. */
  ghost predicate Linked<T>(head: Entry?<T>, nodes: seq<Entry<T>>, b: int)
    reads nodes
  {
    && head == NodeAt(nodes, 0)
    && (forall e <- nodes :: e.bucketIndex == b)
    && (forall j {:trigger nodes[j].prev} :: 0 <= j < |nodes| ==> nodes[j].prev == NodeAt(nodes, j - 1))
    && (forall j {:trigger nodes[j].next} :: 0 <= j < |nodes| ==> nodes[j].next == NodeAt(nodes, j + 1))
    && (forall i, j :: 0 <= i < j < |nodes| ==> nodes[i] != nodes[j])
  }

  /** Every list of the family is properly linked under its own bucket number. */
  ghost predicate AllLinked<T>(heads: seq<Entry?<T>>, lists: seq<seq<Entry<T>>>, repr: set<Entry<T>>)
    reads repr
  {
    && |heads| == |lists|
    && forall b :: 0 <= b < |lists| ==> (forall e <- lists[b] :: e in repr) && Linked(heads[b], lists[b], b)
  }

  /** The lists hold exactly the keys of `bucketOf`, each one in its own bucket. */
  ghost predicate Members<K>(lists: seq<seq<K>>, bucketOf: map<K, int>) {
    && (forall b :: 0 <= b < |lists| ==> forall e <- lists[b] :: e in bucketOf && bucketOf[e] == b)
    && (forall e <- bucketOf :: 0 <= bucketOf[e] < |lists| && e in lists[bucketOf[e]])
  }

  lemma MembersWithout<K>(lists: seq<seq<K>>, bucketOf: map<K, int>, b: int, j: nat)
    requires Members(lists, bucketOf) && 0 <= b < |lists| && j < |lists[b]|
    requires forall i, k :: 0 <= i < k < |lists[b]| ==> lists[b][i] != lists[b][k]
    ensures Members(lists[b := Without(lists[b], j)], bucketOf - {lists[b][j]})
  {
  }

  lemma MembersFront<K>(lists: seq<seq<K>>, bucketOf: map<K, int>, b: int, key: K)
    requires Members(lists, bucketOf) && 0 <= b < |lists| && key !in bucketOf
    ensures Members(lists[b := [key] + lists[b]], bucketOf[key := b])
  {
  }

  /** Taking a whole list away leaves the others as they were. */
  lemma MembersEmptied<K>(lists: seq<seq<K>>, bucketOf: map<K, int>, b: int)
    requires Members(lists, bucketOf) && 0 <= b < |lists|
    ensures Members(lists[b := []], bucketOf - set k | k in lists[b])
    ensures (set k | k in lists[b]) == set k | k in bucketOf && bucketOf[k] == b
  {
  }

  lemma LinkedEmptied<T>(heads: seq<Entry?<T>>, lists: seq<seq<Entry<T>>>, repr: set<Entry<T>>, b: int)
    requires AllLinked(heads, lists, repr) && 0 <= b < |lists|
    ensures AllLinked(heads[b := null], lists[b := []], repr - set e | e in lists[b])
    ensures Linked(heads[b], lists[b], b) && forall e <- lists[b] :: e in repr
  {
  }

  ghost function NodeAt<T>(nodes: seq<Entry<T>>, j: int): Entry?<T> {
    if 0 <= j < |nodes| then nodes[j] else null
  }

  ghost function Without<T>(nodes: seq<T>, j: nat): (rest: seq<T>)
    requires j < |nodes|
  {
    nodes[..j] + nodes[j + 1..]
  }

  lemma WithoutAt<T>(nodes: seq<T>, j: nat, k: nat)
    requires j < |nodes| && k < |nodes| - 1
    ensures Without(nodes, j)[k] == nodes[if k < j then k else k + 1]
  {
  }

  lemma WithoutDistinct<T>(nodes: seq<T>, j: nat)
    requires j < |nodes| && forall i, k :: 0 <= i < k < |nodes| ==> nodes[i] != nodes[k]
    ensures forall i, k :: 0 <= i < k < |Without(nodes, j)| ==> Without(nodes, j)[i] != Without(nodes, j)[k]
  {
  }

  /** Takes node `j` out of a list: its neighbours are joined and its own links cleared. */
  method Unlink<T>(entry: Entry<T>, ghost nodes: seq<Entry<T>>, ghost j: nat, ghost b: int)
    requires j < |nodes| && nodes[j] == entry
    requires Linked(NodeAt(nodes, 0), nodes, b)
    modifies nodes`prev, nodes`next, entry`bucketIndex
    ensures Linked(NodeAt(Without(nodes, j), 0), Without(nodes, j), b)
    ensures entry.bucketIndex == -1 && entry.prev == null && entry.next == null
  {
    if entry.prev != null {
      entry.prev.next := entry.next;
    }
    if entry.next != null {
      entry.next.prev := entry.prev;
    }
    entry.prev := null;
    entry.next := null;
    entry.bucketIndex := -1;
    ghost var rest := Without(nodes, j);
    forall k | 0 <= k < |rest|
      ensures rest[k].prev == NodeAt(rest, k - 1)
      ensures rest[k].next == NodeAt(rest, k + 1)
      ensures rest[k].bucketIndex == b
    {
      WithoutAt(nodes, j, k);
      if k > 0 { WithoutAt(nodes, j, k - 1); }
      if k + 1 < |rest| { WithoutAt(nodes, j, k + 1); }
    }
    WithoutDistinct(nodes, j);
  }

  /** The same inside a family of lists: the other lists do not notice. */
  method UnlinkAmong<T>(entry: Entry<T>, ghost heads: seq<Entry?<T>>, ghost lists: seq<seq<Entry<T>>>,
                        ghost repr: set<Entry<T>>, ghost b: int, ghost j: nat)
    requires 0 <= b < |lists| && j < |lists[b]| && lists[b][j] == entry
    requires AllLinked(heads, lists, repr)
    modifies lists[b]`prev, lists[b]`next, entry`bucketIndex
    ensures AllLinked(heads[b := if old(entry.prev) == null then old(entry.next) else heads[b]],
                      lists[b := Without(lists[b], j)], repr - {entry})
    ensures entry.bucketIndex == -1 && entry.prev == null && entry.next == null
  {
    ghost var nodes := lists[b];
    ghost var rest := Without(nodes, j);
    assert forall e <- rest :: e in nodes && e != entry;
    Unlink(entry, nodes, j, b);
    forall c | 0 <= c < |lists| && c != b
      ensures Linked(heads[c], lists[c], c)
    {
      assert old(Linked(heads[c], lists[c], c));
      assert forall e <- lists[c] ::
          e.prev == old(e.prev) && e.next == old(e.next) && e.bucketIndex == old(e.bucketIndex);
    }
  }

  /** Puts an unlinked node in front of a list. */
  method Link<T>(entry: Entry<T>, head: Entry?<T>, ghost nodes: seq<Entry<T>>, b: int)
    requires Linked(head, nodes, b) && entry !in nodes
    requires entry.prev == null
    modifies entry`next, entry`bucketIndex, nodes`prev
    ensures Linked(entry, [entry] + nodes, b)
  {
    entry.bucketIndex := b;
    entry.next := head;
    if head != null {
      head.prev := entry;
    }
    ghost var all := [entry] + nodes;
    forall k | 0 <= k < |all|
      ensures all[k].prev == NodeAt(all, k - 1)
      ensures all[k].next == NodeAt(all, k + 1)
    {
      if k > 0 { assert all[k] == nodes[k - 1]; }
    }
  }

  /** The same inside a family of lists. */
  method LinkAmong<T>(entry: Entry<T>, ghost heads: seq<Entry?<T>>, head: Entry?<T>,
                      ghost lists: seq<seq<Entry<T>>>, ghost repr: set<Entry<T>>, b: int)
    requires 0 <= b < |lists| && AllLinked(heads, lists, repr)
    requires head == heads[b] && entry !in repr && entry.prev == null
    modifies entry`next, entry`bucketIndex, lists[b]`prev
    ensures AllLinked(heads[b := entry], lists[b := [entry] + lists[b]], repr + {entry})
  {
    ghost var nodes := lists[b];
    Link(entry, head, nodes, b);
    forall c | 0 <= c < |lists| && c != b
      ensures Linked(heads[c], lists[c], c)
    {
      assert old(Linked(heads[c], lists[c], c));
      assert forall e <- lists[c] ::
          e.prev == old(e.prev) && e.next == old(e.next) && e.bucketIndex == old(e.bucketIndex);
    }
  }

  /** The entries whose owner is still alive. */
  ghost function Alive<T>(nodes: seq<Entry<T>>, live: set<T>): seq<Entry<T>> {
    if nodes == [] then []
    else Alive(nodes[..|nodes| - 1], live)
         + if nodes[|nodes| - 1].callback in live then [nodes[|nodes| - 1]] else []
  }

  lemma AliveNone<T>(nodes: seq<Entry<T>>, live: set<T>)
    ensures nodes[..0] == [] && Alive(nodes[..0], live) == []
  {
  }

  lemma AliveStep<T>(nodes: seq<Entry<T>>, k: nat, live: set<T>)
    requires k < |nodes|
    ensures nodes[..k + 1] == nodes[..k] + [nodes[k]]
    ensures Alive(nodes[..k + 1], live)
            == Alive(nodes[..k], live) + if nodes[k].callback in live then [nodes[k]] else []
  {
  }

  lemma {:induction false} AliveMembers<T>(nodes: seq<Entry<T>>, live: set<T>)
    ensures forall e :: e in Alive(nodes, live) <==> e in nodes && e.callback in live
    ensures (forall i, j :: 0 <= i < j < |nodes| ==> nodes[i] != nodes[j]) ==>
              forall i, j :: 0 <= i < j < |Alive(nodes, live)| ==> Alive(nodes, live)[i] != Alive(nodes, live)[j]
  {
    if nodes != [] {
      AliveMembers(nodes[..|nodes| - 1], live);
      assert nodes == nodes[..|nodes| - 1] + [nodes[|nodes| - 1]];
    }
  }

  /** Every entry ever added is attached, or else was deleted exactly once. */
  ghost predicate Accounted<K>(added: set<K>, attached: set<K>, deletions: multiset<K>) {
    && attached <= added
    && (forall e :: e in deletions ==> e in added)
    && (forall e <- added :: deletions[e] == if e in attached then 0 else 1)
  }

  lemma AccountedDelete<K>(added: set<K>, attached: set<K>, deletions: multiset<K>, gone: set<K>)
    requires Accounted(added, attached, deletions) && gone <= attached
    ensures Accounted(added, attached - gone, deletions + multiset(gone))
  {
  }

  lemma AllAccounted<K>(added: set<K>, attached: set<K>, deletions: multiset<K>)
    requires Accounted(added, attached, deletions)
    ensures deletions + multiset(attached) == multiset(added)
  {
  }

  ghost function InBucketsBelow<K>(bucketOf: map<K, int>, b: int): set<K> {
    set e | e in bucketOf && bucketOf[e] < b
  }

  lemma OneMoreBucket<K>(bucketOf: map<K, int>, b: int)
    ensures multiset(InBucketsBelow(bucketOf, b + 1))
            == multiset(InBucketsBelow(bucketOf, b)) + multiset(set e | e in bucketOf && bucketOf[e] == b)
  {
  }

  lemma KeysBelow<K>(bucketOf: map<K, int>, n: int)
    requires forall e <- bucketOf :: 0 <= bucketOf[e] < n
    ensures InBucketsBelow(bucketOf, 0) == {} && InBucketsBelow(bucketOf, n) == bucketOf.Keys
  {
  }

  class TimeWheel<T(==)> {
    const buckets: array<Entry?<T>>
    const bucketCount: int
    const tickIntervalSec: real
    var currentBucket: int

    ghost var lists: seq<seq<Entry<T>>>       // the nodes of each bucket
    ghost var Repr: set<Entry<T>>             // the attached entries
    ghost var bucketOf: map<Entry<T>, int>    // and the bucket each one is in
    ghost var Added: set<Entry<T>>            // every entry ever added
    ghost var deletions: multiset<Entry<T>>   // how often each entry was deleted

    ghost predicate InRange()
      reads this`currentBucket, this`Repr, this`bucketOf
    {
      && bucketCount == buckets.Length >= 1 && tickIntervalSec > 0.0
      && 0 <= currentBucket < bucketCount
      && bucketOf.Keys == Repr
      && (forall e <- bucketOf :: 0 <= bucketOf[e] < bucketCount)
    }

    /** Each bucket is a proper list, the buckets are disjoint, and every attached entry names its
        own bucket. */
    ghost predicate Shape()
      reads this`lists, this`Repr, this`bucketOf, buckets, Repr
    {
      && |lists| == buckets.Length
      && AllLinked(buckets[..], lists, Repr)
      && Members(lists, bucketOf)
    }

    ghost predicate Valid()
      reads this, buckets, Repr
      ensures Valid() ==> InRange()
    {
      Shape() && InRange() && Accounted(Added, Repr, deletions)
    }

    /** The abstract value: how many ticks each attached entry has left. */
    ghost function Remaining(): (left: map<Entry<T>, nat>)
      requires InRange()
      reads this`currentBucket, this`Repr, this`bucketOf
      ensures left.Keys == Repr
    {
      TicksLeft(bucketOf, currentBucket, bucketCount)
    }

    lemma AttachedIsLive(entry: Entry<T>)
      requires Valid() && entry in Repr
      ensures entry in Added && deletions[entry] == 0
    {
    }

    /** Any bucket count and interval will do to construct a wheel; to run one takes a bucket and a
        positive interval. */
    constructor (bucketCount: nat, tickIntervalSec: real)
      ensures fresh(buckets) && buckets.Length == bucketCount
      ensures this.bucketCount == bucketCount && this.tickIntervalSec == tickIntervalSec
      ensures Added == {} && Repr == {} && bucketOf == map[]
      ensures bucketCount >= 1 && tickIntervalSec > 0.0 ==> Valid() && Remaining() == map[]
    {
      this.bucketCount, this.tickIntervalSec := bucketCount, tickIntervalSec;
      buckets := new Entry?<T>[bucketCount](_ => null);
      currentBucket := 0;
      lists := seq(bucketCount, _ => []);
      Repr, bucketOf, Added, deletions := {}, map[], {}, multiset{};
    }

    lemma Locate(entry: Entry<T>) returns (j: nat)
      requires Shape() && InRange() && entry in Repr
      ensures entry.bucketIndex == bucketOf[entry]
      ensures j < |lists[bucketOf[entry]]| && lists[bucketOf[entry]][j] == entry
      ensures var l := lists[bucketOf[entry]]; forall i, k :: 0 <= i < k < |l| ==> l[i] != l[k]
    {
      j :| 0 <= j < |lists[bucketOf[entry]]| && lists[bucketOf[entry]][j] == entry;
    }

    lemma NodesAttached(bucket: int)
      requires Shape() && InRange() && 0 <= bucket < bucketCount
      ensures forall e <- lists[bucket] :: e in Repr
    {
    }

    /** Takes an attached entry out of its bucket's list. */
    method Detach(entry: Entry<T>)
      requires Shape() && InRange() && entry in Repr
      modifies this`lists, this`Repr, this`bucketOf, buckets, Repr`prev, Repr`next, Repr`bucketIndex
      ensures Repr == old(Repr) - {entry}
      ensures Shape() && InRange()
      ensures entry.bucketIndex == -1 && entry.prev == null && entry.next == null
      ensures bucketOf == old(bucketOf) - {entry}
    {
      hide AllLinked, Members;
      var idx := entry.bucketIndex;
      ghost var heads := buckets[..];
      ghost var j := Locate(entry);
      MembersWithout(lists, bucketOf, idx, j);
      NodesAttached(idx);
      if entry.prev == null {
        buckets[idx] := entry.next;
      }
      assert buckets[..] == heads[idx := if entry.prev == null then entry.next else heads[idx]];
      UnlinkAmong(entry, heads, lists, Repr, idx, j);
      lists := lists[idx := Without(lists[idx], j)];
      Repr, bucketOf := Repr - {entry}, bucketOf - {entry};
    }

    /** Puts a detached entry in front of the list of `bucket`. */
    method Attach(bucket: int, entry: Entry<T>)
      requires Shape() && InRange() && 0 <= bucket < bucketCount
      requires entry !in Repr && entry.prev == null
      modifies this`lists, this`Repr, this`bucketOf, buckets, Repr`prev, entry`next, entry`bucketIndex
      ensures Repr == old(Repr) + {entry}
      ensures Shape() && InRange()
      ensures bucketOf == old(bucketOf)[entry := bucket]
    {
      hide AllLinked, Members;
      ghost var heads := buckets[..];
      MembersFront(lists, bucketOf, bucket, entry);
      NodesAttached(bucket);
      LinkAmong(entry, heads, buckets[bucket], lists, Repr, bucket);
      buckets[bucket] := entry;
      lists := lists[bucket := [entry] + lists[bucket]];
      Repr, bucketOf := Repr + {entry}, bucketOf[entry := bucket];
      assert buckets[..] == heads[bucket := entry];
    }

    method Add(timeoutSec: real, callback: T) returns (entry: Entry<T>)
      requires Valid()
      modifies this`lists, this`Repr, this`bucketOf, this`Added, buckets, Repr`prev
      ensures Valid() && fresh(entry)
      ensures entry.timeoutSec == timeoutSec && entry.callback == callback
      ensures Added == old(Added) + {entry} && Repr == old(Repr) + {entry}
      ensures Remaining()
              == Countdown.Step(old(Remaining()),
                                Countdown.Set(entry, TicksFor(timeoutSec, tickIntervalSec, bucketCount)))
      ensures FirstTick(timeoutSec, tickIntervalSec, bucketCount, Remaining()[entry])
    {
      hide Shape, TicksFor, FirstTick;
      TicksForIsFirstTick(timeoutSec, tickIntervalSec, bucketCount);
      entry := new Entry<T>(timeoutSec, callback);
      var ticks := TicksFor(timeoutSec, tickIntervalSec, bucketCount);
      TicksLeftSet(bucketOf, currentBucket, bucketCount, entry, ticks);
      var bucket := (currentBucket + ticks) % bucketCount;
      assert entry !in deletions;
      Attach(bucket, entry);
      Added := Added + {entry};
    }

    /** The caller may pass null, or a pointer that was never deleted. */
    method Remove(entry: Entry?<T>)
      requires Valid() && (entry == null || (entry in Added && deletions[entry] == 0))
      modifies this`lists, this`Repr, this`bucketOf, this`deletions, buckets, Repr`prev, Repr`next, Repr`bucketIndex
      ensures Valid()
      ensures entry == null ==> Remaining() == old(Remaining()) && Repr == old(Repr) && deletions == old(deletions)
      ensures entry != null ==> deletions == old(deletions) + multiset{entry} && Repr == old(Repr) - {entry}
      ensures entry != null ==>
                Remaining() == Countdown.Step(old(Remaining()), Countdown.Cancel(entry))
    {
      hide Shape, TicksFor;
      if entry == null { return; }
      ghost var j := Locate(entry);
      if entry.bucketIndex >= 0 {
        Detach(entry);
      }
      deletions := deletions + multiset{entry};
    }

    /** Restarts the timeout the entry was added with. */
    method Refresh(entry: Entry?<T>)
      requires Valid() && (entry == null || (entry in Added && deletions[entry] == 0))
      modifies this`lists, this`Repr, this`bucketOf, buckets, Repr`prev, Repr`next, Repr`bucketIndex
      ensures Valid() && Repr == old(Repr)
      ensures entry == null ==> Remaining() == old(Remaining())
      ensures entry != null ==>
                Remaining()
                == Countdown.Step<Entry<T>>(
                     old(Remaining()),
                     Countdown.Set(entry, TicksFor(entry.timeoutSec, tickIntervalSec, bucketCount)))
      ensures entry != null && entry in Repr ==>
                FirstTick(entry.timeoutSec, tickIntervalSec, bucketCount, Remaining()[entry])
    {
      hide Shape, TicksFor, TicksLeft, Countdown.Step, FirstTick;
      if entry == null { return; }
      TicksForIsFirstTick(entry.timeoutSec, tickIntervalSec, bucketCount);
      ghost var j := Locate(entry);
      if entry.bucketIndex < 0 { return; }
      ghost var before := bucketOf;
      Detach(entry);
      var ticks := TicksFor(entry.timeoutSec, tickIntervalSec, bucketCount);
      TicksLeftSet<Entry<T>>(before, currentBucket, bucketCount, entry, ticks);
      var bucket := (currentBucket + ticks) % bucketCount;
      Attach(bucket, entry);
      assert bucketOf == before[entry := bucket];
      assert Repr == old(Repr);
      SetGives<Entry<T>>(old(Remaining()), entry, ticks);
    }

    /** First half of a tick: the cursor advances and the list under it is taken out whole. */
    method TakeExpired() returns (head: Entry?<T>, ghost nodes: seq<Entry<T>>)
      requires Shape() && InRange()
      modifies this`currentBucket, this`lists, this`Repr, this`bucketOf, buckets
      ensures Shape() && InRange()
      ensures (set e | e in nodes) == Countdown.Due(old(Remaining()))
      ensures Repr == old(Repr) - Countdown.Due(old(Remaining()))
      ensures Countdown.Due(old(Remaining())) <= old(Repr)
      ensures Remaining() == Countdown.Step(old(Remaining()), Countdown.Tick)
      ensures Linked(head, nodes, currentBucket)
    {
      hide AllLinked, Members, Countdown.Step, Countdown.Due, TicksLeft, Linked;
      ghost var heads := buckets[..];
      ghost var before := currentBucket;
      TicksUntilAdvance(0, currentBucket, bucketCount);
      currentBucket := (currentBucket + 1) % bucketCount;
      head := buckets[currentBucket];
      nodes := lists[currentBucket];
      ghost var expired := set e | e in nodes;
      LinkedEmptied(heads, lists, Repr, currentBucket);
      MembersEmptied(lists, bucketOf, currentBucket);
      TicksLeftTick(bucketOf, before, bucketCount, expired);
      buckets[currentBucket] := null;
      lists := lists[currentBucket := []];
      Repr, bucketOf := Repr - expired, bucketOf - expired;
      assert buckets[..] == heads[currentBucket := null];
    }

    /** Second half: every node of the list is unlinked, its callback runs if its owner is alive,
        and it is deleted. */
    method ExpireAll(first: Entry?<T>, ghost nodes: seq<Entry<T>>, live: set<T>) returns (fired: seq<Entry<T>>)
      requires Linked(first, nodes, currentBucket)
      modifies this`deletions, nodes`prev, nodes`next, nodes`bucketIndex
      ensures deletions == old(deletions) + multiset(nodes)
      ensures fired == Alive(nodes, live)
    {
      hide Alive;
      var head := first;
      fired := [];
      ghost var k := 0;
      AliveNone(nodes, live);
      while head != null
        invariant 0 <= k <= |nodes| && head == NodeAt(nodes, k)
        invariant forall i {:trigger nodes[i].next} :: k <= i < |nodes| ==> nodes[i].next == NodeAt(nodes, i + 1)
        invariant fired == Alive(nodes[..k], live)
        invariant deletions == old(deletions) + multiset(nodes[..k])
        decreases |nodes| - k
      {
        var next := head.next;
        head.prev := null;
        head.next := null;
        head.bucketIndex := -1;
        if head.callback in live {
          fired := fired + [head];
        }
        deletions := deletions + multiset{head};
        AliveStep(nodes, k, live);
        head := next;
        k := k + 1;
      }
      assert nodes[..k] == nodes;
    }

    /** One tick: the entries that are due are deleted, and the callbacks of those whose owner is
        alive run, each once. */
    method Tick(live: set<T>) returns (fired: seq<Entry<T>>)
      requires Valid()
      modifies this`currentBucket, this`lists, this`Repr, this`bucketOf, this`deletions
      modifies buckets, Repr`prev, Repr`next, Repr`bucketIndex
      ensures Valid()
      ensures Remaining() == Countdown.Step(old(Remaining()), Countdown.Tick)
      ensures Repr == old(Repr) - Countdown.Due(old(Remaining()))
      ensures deletions == old(deletions) + multiset(Countdown.Due(old(Remaining())))
      ensures forall e :: e in fired <==> e in Countdown.Due(old(Remaining())) && e.callback in live
      ensures forall i, j :: 0 <= i < j < |fired| ==> fired[i] != fired[j]
    {
      hide Shape, InRange, Remaining, Countdown.Step, Countdown.Due, TicksLeft, Accounted, Alive;
      ghost var due := Countdown.Due(Remaining());
      var head;
      ghost var nodes;
      head, nodes := TakeExpired();
      assert forall e <- nodes :: e in set x | x in nodes;
      assert forall e <- nodes :: e !in Repr;
      AccountedDelete(Added, old(Repr), deletions, due);
      DistinctAsSet(nodes);
      fired := ExpireAll(head, nodes, live);
      AliveMembers(nodes, live);
    }

    /** Deletes the nodes of one bucket. */
    method DeleteList(first: Entry?<T>, ghost nodes: seq<Entry<T>>, ghost b: int)
      requires Linked(first, nodes, b)
      modifies this`deletions
      ensures deletions == old(deletions) + multiset(nodes)
    {
      var entry := first;
      ghost var k := 0;
      while entry != null
        invariant 0 <= k <= |nodes| && entry == NodeAt(nodes, k)
        invariant deletions == old(deletions) + multiset(nodes[..k])
        decreases |nodes| - k
      {
        var next := entry.next;
        deletions := deletions + multiset{entry};
        assert nodes[..k + 1] == nodes[..k] + [nodes[k]];
        entry := next;
        k := k + 1;
      }
      assert nodes[..k] == nodes;
    }

    /** The destructor: afterwards every entry ever added has been deleted exactly once. */
    method Destroy()
      requires Valid()
      modifies this`deletions
      ensures deletions == multiset(Added)
    {
      hide Shape, Linked, InBucketsBelow, Accounted;
      KeysBelow(bucketOf, bucketCount);
      var i := 0;
      while i < bucketCount
        invariant 0 <= i <= bucketCount
        invariant deletions == old(deletions) + multiset(InBucketsBelow(bucketOf, i))
      {
        ghost var nodes := BucketList(i);
        DeleteList(buckets[i], nodes, i);
        OneMoreBucket(bucketOf, i);
        i := i + 1;
      }
      AllAccounted(Added, Repr, old(deletions));
    }

    lemma BucketList(i: int) returns (nodes: seq<Entry<T>>)
      requires Shape() && InRange() && 0 <= i < bucketCount
      ensures Linked(buckets[i], nodes, i)
      ensures (set e | e in nodes) == set e | e in bucketOf && bucketOf[e] == i
      ensures multiset(nodes) == multiset(set e | e in nodes)
    {
      nodes := lists[i];
      DistinctAsSet(nodes);
    }
  }

  lemma {:induction false} DistinctAsSet<K>(s: seq<K>)
    requires forall i, j :: 0 <= i < j < |s| ==> s[i] != s[j]
    ensures multiset(s) == multiset(set x | x in s)
  {
    if s != [] {
      var front := s[..|s| - 1];
      DistinctAsSet(front);
      assert s == front + [s[|s| - 1]];
      assert (set x | x in s) == (set x | x in front) + {s[|s| - 1]};
    }
  }
}
