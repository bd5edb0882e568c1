/**
 * The collision reports of `check_collisions`: which pairs a rank tests,
 * how a peer rank encodes each colliding pair into one integer and keeps a
 * growing buffer of send requests, the messages a peer sends, and how rank 0
 * drains them until every peer has said it is done.
 */
module Reports {
  import CInt
  import opened Bodies

  /** The code a peer sends for the pair `(i, j)`: `i * max + j`. */
  function Encode(i: int, j: int, max: int): int {
    i * max + j
  }

  /** Rank 0's decoding: `j = code % max`, then `i = (code - j) / max`, both as C computes them. */
  function Decode(code: int, max: int): (int, int)
    requires max != 0
  {
    var j := CInt.Mod(code, max);
    (CInt.Div(code - j, max), j)
  }

  /** Decoding gives back the pair, for `i >= 0` and `0 <= j < max`. */
  lemma {:induction false} DecodeEncode(i: int, j: int, max: int)
    requires 0 <= i && 0 <= j < max
    ensures Decode(Encode(i, j, max), max) == (i, j)
  {
    var code := Encode(i, j, max);
    assert 0 <= code by {
      assert 0 <= i * max;
    }
    CInt.NonNegativeAgrees(code, max);
    assert code % max == j && code / max == i by {
      assert code == i * max + j;
      CInt.DivideExactly(code, max, i, j);
    }
    CInt.NonNegativeAgrees(code - j, max);
    assert code - j == i * max;
    CInt.DivideExactly(code - j, max, i, 0);
  }

  /** With both slots below `max <= 46340` the code fits in a 32-bit `int`. */
  lemma PairCodeFits(i: int, j: int, max: int)
    requires 0 <= i < max && 0 <= j < max && max <= 46340
    ensures 0 <= Encode(i, j, max) < 0x8000_0000
  {
    assert i * max <= (max - 1) * max;
    assert max * max <= 46340 * 46340;
  }

  /**
   * The pair `(i, j)` goes to the collision test: both bodies are active, and it is not a moon
   * and a planet in either order (any moon with any planet).
   */
  predicate Eligible(bodies: seq<Body>, i: int, j: int)
    requires 0 <= i < |bodies| && 0 <= j < |bodies|
  {
    bodies[i].active && bodies[j].active &&
    !((bodies[i].kind == Moon && bodies[j].kind == Planet) || (bodies[j].kind == Moon && bodies[i].kind == Planet))
  }

  /**
   * The pair `(i, j)` is eligible and collides. The scan is written for any
   * collision test `collides`; the simulation runs it with
   * `Support.CheckForCollision`.
   */
  predicate Hit(bodies: seq<Body>, collides: (Body, Body) -> bool, i: int, j: int) {
    0 <= i < |bodies| && 0 <= j < |bodies| && Eligible(bodies, i, j) && collides(bodies[i], bodies[j])
  }

  /** The colliding pairs `(i, k)` for `i < k < j`, in the order the inner loop finds them. */
  function RowHits(bodies: seq<Body>, collides: (Body, Body) -> bool, i: int, j: int): seq<(int, int)>
    decreases j - i
  {
    if j <= i + 1 then [] else RowHits(bodies, collides, i, j - 1) + (if Hit(bodies, collides, i, j - 1) then [(i, j - 1)] else [])
  }

  /** The colliding pairs `(i, j)` with `lo <= i < hi` and `i < j < n`, in the order the nested loops find them. */
  function ScanHits(bodies: seq<Body>, collides: (Body, Body) -> bool, n: int, lo: int, hi: int): seq<(int, int)>
    decreases hi - lo
  {
    if hi <= lo then [] else ScanHits(bodies, collides, n, lo, hi - 1) + RowHits(bodies, collides, hi - 1, n)
  }

  /** Membership of a concatenation, given what membership of each part means. */
  lemma InConcat<T>(x: T, s: seq<T>, t: seq<T>, p: bool, q: bool)
    requires x in s <==> p
    requires x in t <==> q
    ensures x in s + t <==> p || q
  {
  }

  lemma {:induction false} RowHitsMembers(bodies: seq<Body>, collides: (Body, Body) -> bool, i: int, j: int, a: int, b: int)
    ensures (a, b) in RowHits(bodies, collides, i, j) <==> a == i && i < b < j && Hit(bodies, collides, a, b)
    decreases j - i
  {
    if j > i + 1 {
      var earlier := RowHits(bodies, collides, i, j - 1);
      var last := if Hit(bodies, collides, i, j - 1) then [(i, j - 1)] else [];
      assert RowHits(bodies, collides, i, j) == earlier + last;
      RowHitsMembers(bodies, collides, i, j - 1, a, b);
      InConcat((a, b), earlier, last, a == i && i < b < j - 1 && Hit(bodies, collides, a, b), a == i && b == j - 1 && Hit(bodies, collides, a, b));
    }
  }

  /** The scan reports exactly the colliding eligible pairs with the lower slot in `[lo, hi)`. */
  lemma {:induction false} ScanHitsMembers(bodies: seq<Body>, collides: (Body, Body) -> bool, n: int, lo: int, hi: int, a: int, b: int)
    ensures (a, b) in ScanHits(bodies, collides, n, lo, hi) <==> lo <= a < hi && a < b < n && Hit(bodies, collides, a, b)
    decreases hi - lo
  {
    if hi > lo {
      var earlier, row := ScanHits(bodies, collides, n, lo, hi - 1), RowHits(bodies, collides, hi - 1, n);
      assert ScanHits(bodies, collides, n, lo, hi) == earlier + row;
      ScanHitsMembers(bodies, collides, n, lo, hi - 1, a, b);
      RowHitsMembers(bodies, collides, hi - 1, n, a, b);
      InConcat((a, b), earlier, row, lo <= a < hi - 1 && a < b < n && Hit(bodies, collides, a, b), a == hi - 1 && a < b < n && Hit(bodies, collides, a, b));
    }
  }

  /** The codes of `pairs`, in order. */
  function Codes(pairs: seq<(int, int)>, max: int): (codes: seq<int>)
    ensures |codes| == |pairs|
  {
    if |pairs| == 0 then [] else Codes(pairs[..|pairs| - 1], max) + [Encode(pairs[|pairs| - 1].0, pairs[|pairs| - 1].1, max)]
  }

  lemma {:induction false} CodesAt(pairs: seq<(int, int)>, max: int, k: int)
    requires 0 <= k < |pairs|
    ensures Codes(pairs, max)[k] == Encode(pairs[k].0, pairs[k].1, max)
  {
    if k < |pairs| - 1 {
      CodesAt(pairs[..|pairs| - 1], max, k);
    }
  }

  lemma CodesSnoc(pairs: seq<(int, int)>, p: (int, int), max: int)
    ensures Codes(pairs + [p], max) == Codes(pairs, max) + [Encode(p.0, p.1, max)]
  {
    assert (pairs + [p])[..|pairs|] == pairs;
  }

  /**
   * The length of a request buffer that starts at `length` and doubles
   * whenever it is full before a write, after `count` writes.
   */
  function Grow(length: nat, count: nat): nat
    requires length > 0
    decreases count - length
  {
    if count <= length then length else Grow(2 * length, count)
  }

  /** The length of the request buffer after `count` reports: it starts at 10. */
  function BufferLength(count: nat): nat {
    Grow(10, count)
  }

  /** One more write doubles the buffer exactly when it was full. */
  lemma {:induction false} GrowNext(length: nat, count: nat)
    requires length > 0
    ensures Grow(length, count + 1) == if Grow(length, count) == count then 2 * count else Grow(length, count)
    decreases count - length
  {
    if count > length {
      GrowNext(2 * length, count);
    }
  }

  /** `10 * 2^k` for some `k`. */
  predicate TenTimesPowerOfTwo(length: nat)
    decreases length
  {
    length == 10 || (length > 10 && length % 2 == 0 && TenTimesPowerOfTwo(length / 2))
  }

  lemma {:induction false} GrowCovers(length: nat, count: nat)
    requires length > 0
    ensures count <= Grow(length, count)
    decreases count - length
  {
    if count > length {
      GrowCovers(2 * length, count);
    }
  }

  lemma {:induction false} GrowBounds(length: nat, count: nat)
    requires length > 0
    ensures count <= Grow(length, count) && length <= Grow(length, count)
    ensures Grow(length, count) == length || Grow(length, count) < 2 * count
    ensures TenTimesPowerOfTwo(length) ==> TenTimesPowerOfTwo(Grow(length, count))
    decreases count - length
  {
    if count > length {
      GrowBounds(2 * length, count);
      assert (2 * length) / 2 == length;
    }
  }

  /**
   * The request buffer always holds every request written so far, is 10
   * doubled some number of times, and is never more than twice as long as
   * needed unless it is still at its initial 10.
   */
  lemma BufferLengthBounds(count: nat)
    ensures count <= BufferLength(count)
    ensures TenTimesPowerOfTwo(BufferLength(count))
    ensures BufferLength(count) == 10 || BufferLength(count) < 2 * count
  {
    GrowBounds(10, count);
  }

  /** The codes of two runs of pairs, one after the other. */
  lemma {:induction false} CodesAppend(a: seq<(int, int)>, b: seq<(int, int)>, max: int)
    ensures Codes(a + b, max) == Codes(a, max) + Codes(b, max)
    decreases |b|
  {
    if |b| == 0 {
      assert a + b == a;
    } else {
      var last := b[|b| - 1];
      assert a + b == (a + b[..|b| - 1]) + [last];
      assert b == b[..|b| - 1] + [last];
      CodesAppend(a, b[..|b| - 1], max);
      CodesSnoc(a + b[..|b| - 1], last, max);
      CodesSnoc(b[..|b| - 1], last, max);
    }
  }

  /** The codes the inner loop for lower slot `i` sends before reaching `j`. */
  function RowCodes(bodies: seq<Body>, collides: (Body, Body) -> bool, i: int, j: int, max: int): seq<int>
    decreases j - i
  {
    if j <= i + 1 then [] else RowCodes(bodies, collides, i, j - 1, max) + (if Hit(bodies, collides, i, j - 1) then [Encode(i, j - 1, max)] else [])
  }

  /** The codes the nested loops send for the lower slots `[lo, hi)`. */
  function ScanCodes(bodies: seq<Body>, collides: (Body, Body) -> bool, n: int, lo: int, hi: int, max: int): seq<int>
    decreases hi - lo
  {
    if hi <= lo then [] else ScanCodes(bodies, collides, n, lo, hi - 1, max) + RowCodes(bodies, collides, hi - 1, n, max)
  }

  /** The inner loop sends the codes of the colliding pairs of its row, in order. */
  lemma {:induction false} RowCodesAreCodes(bodies: seq<Body>, collides: (Body, Body) -> bool, i: int, j: int, max: int)
    ensures RowCodes(bodies, collides, i, j, max) == Codes(RowHits(bodies, collides, i, j), max)
    decreases j - i
  {
    if j > i + 1 {
      var earlier := RowHits(bodies, collides, i, j - 1);
      RowCodesAreCodes(bodies, collides, i, j - 1, max);
      if Hit(bodies, collides, i, j - 1) {
        assert RowHits(bodies, collides, i, j) == earlier + [(i, j - 1)];
        CodesSnoc(earlier, (i, j - 1), max);
      } else {
        assert RowHits(bodies, collides, i, j) == earlier + [];
        assert earlier + [] == earlier;
        assert Codes(earlier, max) + [] == Codes(earlier, max);
      }
    }
  }

  /** The nested loops send the codes of the colliding pairs of the scan, in order. */
  lemma {:induction false} ScanCodesAreCodes(bodies: seq<Body>, collides: (Body, Body) -> bool, n: int, lo: int, hi: int, max: int)
    ensures ScanCodes(bodies, collides, n, lo, hi, max) == Codes(ScanHits(bodies, collides, n, lo, hi), max)
    decreases hi - lo
  {
    if hi > lo {
      var earlier, row := ScanHits(bodies, collides, n, lo, hi - 1), RowHits(bodies, collides, hi - 1, n);
      assert ScanHits(bodies, collides, n, lo, hi) == earlier + row;
      ScanCodesAreCodes(bodies, collides, n, lo, hi - 1, max);
      RowCodesAreCodes(bodies, collides, hi - 1, n, max);
      CodesAppend(earlier, row, max);
    }
  }

  /**
   * The request buffer of a peer rank: `requests[..index]` are the requests
   * of the sends so far, of the codes `sent`; it starts with room for 10 and
   * doubles whenever a send finds it full.
   */
  class RequestBuffer {
    var requests: array<int>
    var index: nat
    ghost var sent: seq<int>

    ghost predicate Valid()
      reads this, requests
    {
      index == |sent| <= requests.Length == Grow(10, index) &&
      requests[..index] == sent
    }

    constructor ()
      ensures Valid() && fresh(requests) && sent == []
    {
      requests := new int[10];
      index := 0;
      sent := [];
    }

    /** Records the send of `code`, first moving the requests to a buffer twice as long when it is full. */
    method Push(code: int)
      requires Valid()
      modifies this, requests
      ensures Valid() && sent == old(sent) + [code]
      ensures requests == old(requests) || fresh(requests)
    {
      GrowNext(10, index);
      GrowCovers(10, index + 1);
      if index == requests.Length {
        var bigger := new int[2 * index];
        forall k | 0 <= k < index {
          bigger[k] := requests[k];
        }
        requests := bigger;
      }
      assert requests[..index] == sent;
      requests[index] := code;
      assert requests[..index + 1] == sent + [code];
      index := index + 1;
      sent := sent + [code];
    }

    /** The requests written so far are the codes sent. */
    method Written() returns (codes: seq<int>)
      requires Valid()
      ensures codes == sent
    {
      codes := requests[..index];
    }
  }

  /**
   * The inner loop of the scan for lower slot `i`: sends the code of every
   * colliding `(i, j)`, `i < j < n`.
   */
  method ScanRow(bodies: seq<Body>, collides: (Body, Body) -> bool, n: int, i: int, max: int, buffer: RequestBuffer)
    requires 0 <= i < n <= |bodies|
    requires buffer.Valid()
    modifies buffer, buffer.requests
    ensures buffer.Valid()
    ensures buffer.sent == old(buffer.sent) + RowCodes(bodies, collides, i, n, max)
    ensures buffer.requests == old(buffer.requests) || fresh(buffer.requests)
  {
    ghost var written := buffer.sent;
    var j := i + 1;
    assert written + [] == written;
    while j < n
      invariant i + 1 <= j <= n
      invariant buffer.Valid()
      invariant buffer.requests == old(buffer.requests) || fresh(buffer.requests)
      invariant buffer.sent == written + RowCodes(bodies, collides, i, j, max)
    {
      ghost var row := RowCodes(bodies, collides, i, j, max);
      if Hit(bodies, collides, i, j) {
        var code := Encode(i, j, max);
        buffer.Push(code);
        assert (written + row) + [code] == written + (row + [code]);
      } else {
        assert row + [] == row;
      }
      j := j + 1;
    }
  }

  /** The outer loop of the scan over lower slots `[lo, hi)`: the rows one after the other. */
  method ScanRows(bodies: seq<Body>, collides: (Body, Body) -> bool, n: int, lo: int, hi: int, max: int, buffer: RequestBuffer)
    requires 0 <= lo <= hi <= n <= |bodies|
    requires buffer.Valid()
    modifies buffer, buffer.requests
    ensures buffer.Valid()
    ensures buffer.sent == old(buffer.sent) + ScanCodes(bodies, collides, n, lo, hi, max)
    ensures buffer.requests == old(buffer.requests) || fresh(buffer.requests)
  {
    ghost var written := buffer.sent;
    var i := lo;
    assert written + [] == written;
    while i < hi
      invariant lo <= i <= hi
      invariant buffer.Valid()
      invariant buffer.requests == old(buffer.requests) || fresh(buffer.requests)
      invariant buffer.sent == written + ScanCodes(bodies, collides, n, lo, i, max)
    {
      ghost var scanned := ScanCodes(bodies, collides, n, lo, i, max);
      ScanRow(bodies, collides, n, i, max, buffer);
      assert (written + scanned) + RowCodes(bodies, collides, i, n, max) == written + (scanned + RowCodes(bodies, collides, i, n, max));
      i := i + 1;
    }
  }

  /**
   * The scan a peer rank runs over its mirrored slice `[lo, hi)`: every
   * colliding pair it finds is encoded and sent, each send's request kept in
   * the request buffer. Returns the codes sent, in order, and the final
   * length of the buffer.
   */
  method PeerReports(bodies: seq<Body>, collides: (Body, Body) -> bool, n: int, lo: int, hi: int, max: int) returns (sent: seq<int>, length: nat)
    requires 0 <= lo <= hi <= n <= |bodies|
    ensures sent == Codes(ScanHits(bodies, collides, n, lo, hi), max)
    ensures length == BufferLength(|sent|)
  {
    var buffer := new RequestBuffer();
    ScanRows(bodies, collides, n, lo, hi, max, buffer);
    assert [] + ScanCodes(bodies, collides, n, lo, hi, max) == ScanCodes(bodies, collides, n, lo, hi, max);
    sent := buffer.Written();
    length := buffer.requests.Length;
    ScanCodesAreCodes(bodies, collides, n, lo, hi, max);
  }

  /** Every code a peer sends decodes to a colliding eligible pair of its slice. */
  lemma PeerCodesDecode(bodies: seq<Body>, collides: (Body, Body) -> bool, n: int, lo: int, hi: int, max: int, k: int)
    requires 0 <= lo && hi <= n <= |bodies| && n <= max
    requires 0 <= k < |ScanHits(bodies, collides, n, lo, hi)|
    ensures var (a, b) := Decode(Codes(ScanHits(bodies, collides, n, lo, hi), max)[k], max);
      lo <= a < hi && a < b < n && Hit(bodies, collides, a, b)
  {
    var hits := ScanHits(bodies, collides, n, lo, hi);
    var (a, b) := hits[k];
    CodesAt(hits, max, k);
    ScanHitsMembers(bodies, collides, n, lo, hi, a, b);
    DecodeEncode(a, b, max);
  }

  /** A point-to-point message: its tag and the one integer it carries. */
  datatype Message = Message(tag: int, payload: int)

  /** A tag-0 message: a peer has finished reporting. */
  predicate IsDone(m: Message) {
    m.tag == 0
  }

  /** What peer `id` sends: one message tagged `id` per code, then the count of codes with tag 0. */
  function PeerStream(id: int, codes: seq<int>): (stream: seq<Message>)
    ensures |stream| == |codes| + 1
  {
    seq(|codes|, k requires 0 <= k < |codes| => Message(id, codes[k])) + [Message(0, |codes|)]
  }

  function CountDone(ms: seq<Message>): nat {
    if |ms| == 0 then 0 else CountDone(ms[..|ms| - 1]) + (if IsDone(ms[|ms| - 1]) then 1 else 0)
  }

  /** The reports among `ms`, in order. */
  function ReportsOf(ms: seq<Message>): seq<Message> {
    if |ms| == 0 then [] else ReportsOf(ms[..|ms| - 1]) + (if IsDone(ms[|ms| - 1]) then [] else [ms[|ms| - 1]])
  }

  lemma {:induction false} CountDoneAppend(a: seq<Message>, b: seq<Message>)
    ensures CountDone(a + b) == CountDone(a) + CountDone(b)
    ensures ReportsOf(a + b) == ReportsOf(a) + ReportsOf(b)
    decreases |b|
  {
    if |b| == 0 {
      assert a + b == a;
    } else {
      assert (a + b)[..|a + b| - 1] == a + b[..|b| - 1];
      CountDoneAppend(a, b[..|b| - 1]);
    }
  }

  /** A peer with `id >= 1` sends exactly one done message, last, and reports tagged with its id. */
  lemma {:induction false} PeerStreamShape(id: int, codes: seq<int>)
    requires id >= 1
    ensures CountDone(PeerStream(id, codes)) == 1
    ensures IsDone(PeerStream(id, codes)[|codes|])
    ensures ReportsOf(PeerStream(id, codes)) == PeerStream(id, codes)[..|codes|]
    ensures forall k :: 0 <= k < |codes| ==> PeerStream(id, codes)[k] == Message(id, codes[k])
  {
    var reports := seq(|codes|, k requires 0 <= k < |codes| => Message(id, codes[k]));
    NoDoneAmongReports(reports);
    CountDoneAppend(reports, [Message(0, |codes|)]);
    assert [Message(0, |codes|)][..0] == [];
    assert PeerStream(id, codes)[..|codes|] == reports;
  }

  lemma {:induction false} NoDoneAmongReports(ms: seq<Message>)
    requires forall k :: 0 <= k < |ms| ==> !IsDone(ms[k])
    ensures CountDone(ms) == 0 && ReportsOf(ms) == ms
  {
    if |ms| > 0 {
      NoDoneAmongReports(ms[..|ms| - 1]);
    }
  }

  /** How rank 0's receive loop ends: every awaited done message came, or it blocks for ever. */
  datatype Drained =
    | Drained(pairs: seq<(int, int)>, unread: seq<Message>)
    | Starved(pairs: seq<(int, int)>)

  function Prepend(p: (int, int), d: Drained): Drained {
    match d
    case Drained(ps, rest) => Drained([p] + ps, rest)
    case Starved(ps) => Starved([p] + ps)
  }

  /**
   * Rank 0's receive loop over the messages in arrival order: a done message
   * lowers the number still `awaiting`, any other message is decoded into the
   * pair to resolve next. The loop ends when no peer is awaited; it blocks
   * (Starved) if the messages run out first.
   */
  function Drain(arrivals: seq<Message>, awaiting: nat, max: int): Drained
    requires max != 0
  {
    if awaiting == 0 then Drained([], arrivals)
    else if |arrivals| == 0 then Starved([])
    else if IsDone(arrivals[0]) then Drain(arrivals[1..], awaiting - 1, max)
    else Prepend(Decode(arrivals[0].payload, max), Drain(arrivals[1..], awaiting, max))
  }

  /** The number of done messages rank 0 waits for: one per other rank. */
  function Awaited(population: int): nat {
    if population <= 1 then 0 else population - 1
  }

  function DecodeAll(ms: seq<Message>, max: int): (pairs: seq<(int, int)>)
    requires max != 0
    ensures |pairs| == |ms|
    ensures forall k :: 0 <= k < |ms| ==> pairs[k] == Decode(ms[k].payload, max)
  {
    if |ms| == 0 then [] else [Decode(ms[0].payload, max)] + DecodeAll(ms[1..], max)
  }

  lemma {:induction false} CountDoneFront(ms: seq<Message>)
    requires |ms| > 0
    ensures CountDone(ms) == (if IsDone(ms[0]) then 1 else 0) + CountDone(ms[1..])
    ensures ReportsOf(ms) == (if IsDone(ms[0]) then [] else [ms[0]]) + ReportsOf(ms[1..])
  {
    assert ms == [ms[0]] + ms[1..];
    CountDoneAppend([ms[0]], ms[1..]);
    assert [ms[0]][..0] == [];
  }

  /**
   * When exactly `awaiting` done messages arrive and the last message is one
   * of them, the loop reads every message and resolves every report, in
   * arrival order.
   */
  lemma {:induction false} DrainReadsAll(arrivals: seq<Message>, awaiting: nat, max: int)
    requires max != 0
    requires CountDone(arrivals) == awaiting
    requires |arrivals| > 0 ==> IsDone(arrivals[|arrivals| - 1])
    ensures Drain(arrivals, awaiting, max) == Drained(DecodeAll(ReportsOf(arrivals), max), [])
  {
    if |arrivals| > 0 {
      CountDoneFront(arrivals);
      if awaiting == 0 {
        assert false;
      } else {
        var first, rest := arrivals[0], arrivals[1..];
        assert |rest| > 0 ==> rest[|rest| - 1] == arrivals[|arrivals| - 1];
        if IsDone(first) {
          DrainReadsAll(rest, awaiting - 1, max);
          assert Drain(arrivals, awaiting, max) == Drain(rest, awaiting - 1, max);
          assert ReportsOf(arrivals) == ReportsOf(rest);
        } else {
          DrainReadsAll(rest, awaiting, max);
          var tail := DecodeAll(ReportsOf(rest), max);
          assert Drain(arrivals, awaiting, max) == Prepend(Decode(first.payload, max), Drained(tail, []));
          assert ReportsOf(arrivals) == [first] + ReportsOf(rest);
          assert ([first] + ReportsOf(rest))[1..] == ReportsOf(rest);
          assert DecodeAll([first] + ReportsOf(rest), max) == [Decode(first.payload, max)] + tail;
        }
      }
    } else {
      assert Drain(arrivals, awaiting, max) == Drained([], []);
      assert DecodeAll(ReportsOf(arrivals), max) == [];
    }
  }

  /** With fewer done messages than it awaits, the loop never ends. */
  lemma {:induction false} DrainStarves(arrivals: seq<Message>, awaiting: nat, max: int)
    requires max != 0 && CountDone(arrivals) < awaiting
    ensures Drain(arrivals, awaiting, max).Starved?
  {
    if |arrivals| > 0 {
      CountDoneFront(arrivals);
      DrainStarves(arrivals[1..], if IsDone(arrivals[0]) then awaiting - 1 else awaiting, max);
      match Drain(arrivals[1..], if IsDone(arrivals[0]) then awaiting - 1 else awaiting, max)
      case Starved(_) =>
      case Drained(_, _) =>
    }
  }

  /** `m` is an interleaving of `a` and `b` that keeps the order within each. */
  predicate Merge(m: seq<Message>, a: seq<Message>, b: seq<Message>)
    decreases |m|
  {
    if |m| == 0 then a == [] && b == []
    else
      (|a| > 0 && m[0] == a[0] && Merge(m[1..], a[1..], b)) ||
      (|b| > 0 && m[0] == b[0] && Merge(m[1..], a, b[1..]))
  }

  /** `m` is an order in which the messages of all `streams` can arrive, each stream in its own order. */
  ghost predicate Arrival(m: seq<Message>, streams: seq<seq<Message>>)
    decreases |streams|
  {
    if |streams| == 0 then m == []
    else exists rest :: Merge(m, streams[0], rest) && Arrival(rest, streams[1..])
  }

  predicate EndsDone(ms: seq<Message>) {
    |ms| > 0 && IsDone(ms[|ms| - 1])
  }

  lemma {:induction false} MergeCounts(m: seq<Message>, a: seq<Message>, b: seq<Message>)
    requires Merge(m, a, b)
    ensures CountDone(m) == CountDone(a) + CountDone(b)
    ensures |ReportsOf(m)| == |ReportsOf(a)| + |ReportsOf(b)|
    ensures (EndsDone(a) || a == []) && (EndsDone(b) || b == []) ==> EndsDone(m) || m == []
    decreases |m|
  {
    if |m| > 0 {
      CountDoneFront(m);
      if |a| > 0 && m[0] == a[0] && Merge(m[1..], a[1..], b) {
        MergeCounts(m[1..], a[1..], b);
        CountDoneFront(a);
        assert |a| > 1 ==> a[1..][|a| - 2] == a[|a| - 1];
        if |m| == 1 {
          assert a[1..] == [] && b == [];
        }
      } else {
        MergeCounts(m[1..], a, b[1..]);
        CountDoneFront(b);
        assert |b| > 1 ==> b[1..][|b| - 2] == b[|b| - 1];
        if |m| == 1 {
          assert a == [] && b[1..] == [];
        }
      }
      assert |m| > 1 ==> m[1..][|m| - 2] == m[|m| - 1];
    }
  }

  function TotalReports(streams: seq<seq<Message>>): nat {
    if |streams| == 0 then 0 else |ReportsOf(streams[0])| + TotalReports(streams[1..])
  }

  /** Interleaving two streams keeps every report: the reports of `m` are those of `a` and of `b` together. */
  lemma {:induction false} MergeReports(m: seq<Message>, a: seq<Message>, b: seq<Message>)
    requires Merge(m, a, b)
    ensures multiset(ReportsOf(m)) == multiset(ReportsOf(a)) + multiset(ReportsOf(b))
    decreases |m|
  {
    if |m| > 0 {
      CountDoneFront(m);
      if |a| > 0 && m[0] == a[0] && Merge(m[1..], a[1..], b) {
        MergeReports(m[1..], a[1..], b);
        CountDoneFront(a);
      } else {
        MergeReports(m[1..], a, b[1..]);
        CountDoneFront(b);
      }
    }
  }

  lemma DecodeAllAppend(s: seq<Message>, t: seq<Message>, max: int)
    requires max != 0
    ensures DecodeAll(s + t, max) == DecodeAll(s, max) + DecodeAll(t, max)
  {
  }

  /** Sequences holding the same messages decode to the same pairs, counted with repetition. */
  lemma {:induction false} PermDecoded(s: seq<Message>, t: seq<Message>, max: int)
    requires max != 0 && multiset(s) == multiset(t)
    ensures multiset(DecodeAll(s, max)) == multiset(DecodeAll(t, max))
    decreases |s|
  {
    if |s| > 0 {
      assert s[0] in multiset(t);
      var i :| 0 <= i < |t| && t[i] == s[0];
      var rest := t[..i] + t[i + 1..];
      assert t == t[..i] + [s[0]] + t[i + 1..];
      assert s == [s[0]] + s[1..];
      assert multiset(t) == multiset(t[..i]) + multiset{s[0]} + multiset(t[i + 1..]);
      assert multiset(s) == multiset{s[0]} + multiset(s[1..]);
      assert multiset(rest) == multiset(t[..i]) + multiset(t[i + 1..]);
      assert multiset(s[1..]) == multiset(s) - multiset{s[0]};
      assert multiset(rest) == multiset(t) - multiset{s[0]};
      PermDecoded(s[1..], rest, max);
      DecodeAllAppend([s[0]], s[1..], max);
      DecodeAllAppend(t[..i] + [s[0]], t[i + 1..], max);
      DecodeAllAppend(t[..i], [s[0]], max);
      DecodeAllAppend(t[..i], t[i + 1..], max);
    }
  }

  /** Interleaving two streams keeps every decoded report: the pairs of `m` are those of `a` and of `b` together. */
  lemma MergeDecoded(m: seq<Message>, a: seq<Message>, b: seq<Message>, max: int)
    requires max != 0 && Merge(m, a, b)
    ensures multiset(DecodeAll(ReportsOf(m), max)) ==
      multiset(DecodeAll(ReportsOf(a), max)) + multiset(DecodeAll(ReportsOf(b), max))
  {
    MergeReports(m, a, b);
    PermDecoded(ReportsOf(m), ReportsOf(a) + ReportsOf(b), max);
    DecodeAllAppend(ReportsOf(a), ReportsOf(b), max);
  }

  /** The reports of all `streams`, as a multiset. */
  function AllReports(streams: seq<seq<Message>>): multiset<Message> {
    if |streams| == 0 then multiset{} else multiset(ReportsOf(streams[0])) + AllReports(streams[1..])
  }

  /** The decoded reports of all `streams`, as a multiset. */
  function DecodedReports(streams: seq<seq<Message>>, max: int): multiset<(int, int)>
    requires max != 0
  {
    if |streams| == 0 then multiset{} else multiset(DecodeAll(ReportsOf(streams[0]), max)) + DecodedReports(streams[1..], max)
  }

  /**
   * Whatever order the messages of the peer streams arrive in, there is one
   * done message per stream, the last message to arrive is a done message,
   * and all reports come through.
   */
  lemma {:induction false} ArrivalCounts(m: seq<Message>, streams: seq<seq<Message>>)
    requires Arrival(m, streams)
    requires forall k :: 0 <= k < |streams| ==> CountDone(streams[k]) == 1 && EndsDone(streams[k])
    ensures CountDone(m) == |streams|
    ensures |ReportsOf(m)| == TotalReports(streams)
    ensures multiset(ReportsOf(m)) == AllReports(streams)
    ensures |streams| > 0 ==> EndsDone(m)
    decreases |streams|
  {
    if |streams| > 0 {
      var rest :| Merge(m, streams[0], rest) && Arrival(rest, streams[1..]);
      ArrivalCounts(rest, streams[1..]);
      MergeCounts(m, streams[0], rest);
      MergeReports(m, streams[0], rest);
    }
  }

  /** Whatever order the messages of the streams arrive in, the decoded reports are those of all the streams. */
  lemma {:induction false} ArrivalDecoded(m: seq<Message>, streams: seq<seq<Message>>, max: int)
    requires max != 0 && Arrival(m, streams)
    ensures multiset(DecodeAll(ReportsOf(m), max)) == DecodedReports(streams, max)
    decreases |streams|
  {
    if |streams| > 0 {
      var rest :| Merge(m, streams[0], rest) && Arrival(rest, streams[1..]);
      ArrivalDecoded(rest, streams[1..], max);
      MergeDecoded(m, streams[0], rest, max);
    }
  }

  /** The streams of peers `1 .. population - 1`, peer `k + 1` sending `codes[k]`. */
  function PeerStreams(codes: seq<seq<int>>): (streams: seq<seq<Message>>)
    ensures |streams| == |codes|
    ensures forall k :: 0 <= k < |codes| ==> streams[k] == PeerStream(k + 1, codes[k])
  {
    seq(|codes|, k requires 0 <= k < |codes| => PeerStream(k + 1, codes[k]))
  }

  /** The pairs rank 0 decodes from the codes `cs`, in order. */
  function DecodeCodes(cs: seq<int>, max: int): (pairs: seq<(int, int)>)
    requires max != 0
    ensures |pairs| == |cs| && forall k :: 0 <= k < |cs| ==> pairs[k] == Decode(cs[k], max)
  {
    seq(|cs|, k requires 0 <= k < |cs| => Decode(cs[k], max))
  }

  /** The pairs the codes of all peers decode to, as a multiset. */
  function SentPairs(codes: seq<seq<int>>, max: int): multiset<(int, int)>
    requires max != 0
  {
    if |codes| == 0 then multiset{} else multiset(DecodeCodes(codes[0], max)) + SentPairs(codes[1..], max)
  }

  /** The reports of a peer's stream decode to the pairs of its codes, in the order it sent them. */
  lemma PeerStreamDecoded(id: int, cs: seq<int>, max: int)
    requires id >= 1 && max != 0
    ensures DecodeAll(ReportsOf(PeerStream(id, cs)), max) == DecodeCodes(cs, max)
  {
    PeerStreamShape(id, cs);
  }

  /** The messages of `ms` tagged `id`, in order. */
  function FromPeer(ms: seq<Message>, id: int): seq<Message>
    decreases |ms|
  {
    if |ms| == 0 then [] else (if ms[0].tag == id then [ms[0]] else []) + FromPeer(ms[1..], id)
  }

  lemma {:induction false} FromPeerUniform(ms: seq<Message>, id: int)
    ensures (forall k :: 0 <= k < |ms| ==> ms[k].tag == id) ==> FromPeer(ms, id) == ms
    ensures (forall k :: 0 <= k < |ms| ==> ms[k].tag != id) ==> FromPeer(ms, id) == []
    decreases |ms|
  {
    if |ms| > 0 {
      FromPeerUniform(ms[1..], id);
      assert ms == [ms[0]] + ms[1..];
    }
  }

  lemma {:induction false} FromPeerAppend(s: seq<Message>, t: seq<Message>, id: int)
    ensures FromPeer(s + t, id) == FromPeer(s, id) + FromPeer(t, id)
    decreases |s|
  {
    if |s| > 0 {
      FromPeerAppend(s[1..], t, id);
      assert (s + t)[1..] == s[1..] + t;
    } else {
      assert s + t == t;
    }
  }

  /** Of a peer's stream, the messages with a non-zero tag are its reports if the tag is its rank, and none otherwise. */
  lemma PeerStreamFromPeer(id: int, cs: seq<int>, tag: int)
    requires id >= 1 && tag >= 1
    ensures FromPeer(PeerStream(id, cs), tag) == if tag == id then PeerStream(id, cs)[..|cs|] else []
  {
    var reports := seq(|cs|, k requires 0 <= k < |cs| => Message(id, cs[k]));
    assert PeerStream(id, cs) == reports + [Message(0, |cs|)];
    assert PeerStream(id, cs)[..|cs|] == reports;
    FromPeerAppend(reports, [Message(0, |cs|)], tag);
    FromPeerUniform(reports, tag);
    FromPeerUniform([Message(0, |cs|)], tag);
  }

  /** Interleaving keeps the order of each stream: a tag found in one stream only is read in that stream's order. */
  lemma {:induction false} MergeFromPeer(m: seq<Message>, a: seq<Message>, b: seq<Message>, id: int)
    requires Merge(m, a, b)
    ensures FromPeer(b, id) == [] ==> FromPeer(m, id) == FromPeer(a, id)
    ensures FromPeer(a, id) == [] ==> FromPeer(m, id) == FromPeer(b, id)
    decreases |m|
  {
    if |m| > 0 {
      if |a| > 0 && m[0] == a[0] && Merge(m[1..], a[1..], b) {
        MergeFromPeer(m[1..], a[1..], b, id);
      } else {
        MergeFromPeer(m[1..], a, b[1..], id);
      }
    }
  }

  lemma {:induction false} ArrivalNone(m: seq<Message>, streams: seq<seq<Message>>, id: int)
    requires Arrival(m, streams)
    requires forall j :: 0 <= j < |streams| ==> FromPeer(streams[j], id) == []
    ensures FromPeer(m, id) == []
    decreases |streams|
  {
    if |streams| > 0 {
      var rest :| Merge(m, streams[0], rest) && Arrival(rest, streams[1..]);
      assert forall j :: 0 <= j < |streams| - 1 ==> streams[1..][j] == streams[j + 1];
      ArrivalNone(rest, streams[1..], id);
      MergeFromPeer(m, streams[0], rest, id);
    }
  }

  /** In any arrival order, the messages tagged `id`, when only stream `k` holds them, come in that stream's order. */
  lemma {:induction false} ArrivalFromPeer(m: seq<Message>, streams: seq<seq<Message>>, k: nat, id: int)
    requires Arrival(m, streams) && k < |streams|
    requires forall j :: 0 <= j < |streams| && j != k ==> FromPeer(streams[j], id) == []
    ensures FromPeer(m, id) == FromPeer(streams[k], id)
    decreases |streams|
  {
    var rest :| Merge(m, streams[0], rest) && Arrival(rest, streams[1..]);
    assert forall j :: 0 <= j < |streams| - 1 ==> streams[1..][j] == streams[j + 1];
    if k == 0 {
      ArrivalNone(rest, streams[1..], id);
    } else {
      ArrivalFromPeer(rest, streams[1..], k - 1, id);
    }
    MergeFromPeer(m, streams[0], rest, id);
  }

  /** Each peer's reports reach rank 0 in the order the peer sent them, whatever the interleaving. */
  lemma PeersInOrder(m: seq<Message>, codes: seq<seq<int>>, k: nat)
    requires k < |codes| && Arrival(m, PeerStreams(codes))
    ensures FromPeer(m, k + 1) == PeerStream(k + 1, codes[k])[..|codes[k]|]
  {
    var streams := PeerStreams(codes);
    forall j | 0 <= j < |streams| ensures FromPeer(streams[j], k + 1) == if j == k then streams[k][..|codes[k]|] else [] {
      PeerStreamFromPeer(j + 1, codes[j], k + 1);
    }
    ArrivalFromPeer(m, streams, k, k + 1);
  }

  /** Streams whose reports decode to the pairs of `codes`, stream by stream, decode to `SentPairs(codes)`. */
  lemma {:induction false} StreamsDecoded(streams: seq<seq<Message>>, codes: seq<seq<int>>, max: int)
    requires max != 0 && |streams| == |codes|
    requires forall k :: 0 <= k < |codes| ==> DecodeAll(ReportsOf(streams[k]), max) == DecodeCodes(codes[k], max)
    ensures DecodedReports(streams, max) == SentPairs(codes, max)
    decreases |codes|
  {
    if |codes| > 0 {
      assert forall k :: 0 <= k < |codes| - 1 ==> streams[1..][k] == streams[k + 1] && codes[1..][k] == codes[k + 1];
      StreamsDecoded(streams[1..], codes[1..], max);
    }
  }

  /**
   * The receive loop of rank 0 ends after every peer's done message, whatever
   * the arrival order, having resolved all the peers' reports and left no
   * message unread.
   */
  lemma {:induction false} PeersDrain(m: seq<Message>, codes: seq<seq<int>>, population: int, max: int)
    requires max != 0 && population > 1 && |codes| == population - 1
    requires Arrival(m, PeerStreams(codes))
    ensures Drain(m, Awaited(population), max).Drained?
    ensures Drain(m, Awaited(population), max).unread == []
    ensures |Drain(m, Awaited(population), max).pairs| == TotalReports(PeerStreams(codes))
    ensures multiset(Drain(m, Awaited(population), max).pairs) == SentPairs(codes, max)
    ensures Drain(m, Awaited(population), max).pairs == DecodeAll(ReportsOf(m), max)
    ensures forall k :: 0 <= k < |codes| ==> FromPeer(m, k + 1) == PeerStream(k + 1, codes[k])[..|codes[k]|]
  {
    var streams := PeerStreams(codes);
    forall k | 0 <= k < |streams| ensures CountDone(streams[k]) == 1 && EndsDone(streams[k]) {
      PeerStreamShape(k + 1, codes[k]);
    }
    ArrivalCounts(m, streams);
    DrainReadsAll(m, Awaited(population), max);
    forall k | 0 <= k < |codes| ensures DecodeAll(ReportsOf(streams[k]), max) == DecodeCodes(codes[k], max) {
      PeerStreamDecoded(k + 1, codes[k], max);
    }
    ArrivalDecoded(m, streams, max);
    StreamsDecoded(streams, codes, max);
    forall k | 0 <= k < |codes| ensures FromPeer(m, k + 1) == PeerStream(k + 1, codes[k])[..|codes[k]|] {
      PeersInOrder(m, codes, k);
    }
  }
}
