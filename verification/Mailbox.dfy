/** The order mailbox (web/functions/api/msg.ts): a bounded thread per topic, one envelope
    per identity, sorted by timestamp.  */
module Mailbox {
  import opened Wrappers
  import opened Sorting

  datatype Envelope = Envelope(
    from: string, seqNo: int, kind: string, ts: int,
    pub: Option<string>, iv: Option<string>, ct: Option<string>,
    commit: Option<string>, commitSig: Option<string>)
  {
    function Identity(): Id { Id(from, seqNo, kind) }
  }

  /** A repost with the same identity replaces. */
  datatype Id = Id(from: string, seqNo: int, kind: string)

  const THREAD_MAX: nat := 200

  const MSG_MAX_BYTES: nat := 16384

  predicate ByTs(a: Envelope, b: Envelope) {
    a.ts <= b.ts
  }

  /** Index of the first envelope with this identity, |thread| when there is none. */
  function IndexOf(thread: seq<Envelope>, id: Id): (i: nat)
    ensures i <= |thread|
    ensures i < |thread| ==> thread[i].Identity() == id
    ensures forall k :: 0 <= k < i ==> thread[k].Identity() != id
  {
    if thread == [] || thread[0].Identity() == id then 0 else 1 + IndexOf(thread[1..], id)
  }

  function Newest(thread: seq<Envelope>): seq<Envelope> {
    if |thread| <= THREAD_MAX then thread else thread[|thread| - THREAD_MAX..]
  }

  /** The post in the place of its identity, or at the end. */
  function Replaced(thread: seq<Envelope>, msg: Envelope): seq<Envelope> {
    var i := IndexOf(thread, msg.Identity());
    if i < |thread| then thread[i := msg] else thread + [msg]
  }

  /** The thread before it is cut to size. */
  function Placed(thread: seq<Envelope>, msg: Envelope): seq<Envelope> {
    SortBy(Replaced(thread, msg), ByTs)
  }

  function Post(thread: seq<Envelope>, msg: Envelope): seq<Envelope> {
    Newest(Placed(thread, msg))
  }

  function Since(thread: seq<Envelope>, since: int): seq<Envelope> {
    if thread == [] then []
    else (if thread[0].ts > since then [thread[0]] else []) + Since(thread[1..], since)
  }

  // ---- the endpoint -------------------------------------------------------

  /** "0x" and 64 hexadecimal digits of either case. */
  predicate OkTopic(t: string) {
    |t| == 66 && t[..2] == "0x" && forall k :: 2 <= k < 66 ==> '0' <= t[k] <= '9' || 'a' <= t[k] <= 'f' || 'A' <= t[k] <= 'F'
  }

  predicate GoodTopic(t: Option<string>) {
    t.Some? && OkTopic(t.value)
  }

  /** A request body: unreadable, the JSON text `null`, or a topic (if it is a string), an
      envelope (if from, seq and kind have their types) and the size of its JSON text. */
  datatype Body = Unreadable | Null | Body(topic: Option<string>, msg: Option<Envelope>, bytes: nat)

  class Relay {
    /** None until a store is bound. */
    var kv: Option<map<string, seq<Envelope>>>

    constructor (kv: Option<map<string, seq<Envelope>>>)
      ensures this.kv == kv
    {
      this.kv := kv;
    }

    function Thread(topic: string): seq<Envelope>
      reads this
      requires kv.Some?
    {
      if topic in kv.value then kv.value[topic] else []
    }

    /** Returns the HTTP status, None where the handler throws; only a stored post changes
        anything, and only its topic. */
    method OnRequestPost(body: Body) returns (status: Option<nat>)
      modifies this
      ensures status == Some(503) <==> old(kv).None?
      ensures status == None <==> old(kv).Some? && body.Null?
      ensures status.Some? ==> status.value in {200, 400, 413, 503}
      ensures old(kv).Some? && body.Unreadable? ==> status == Some(400)
      ensures old(kv).Some? && body.Body? && (!GoodTopic(body.topic) || body.msg.None?) ==> status == Some(400)
      ensures old(kv).Some? && body.Body? && GoodTopic(body.topic) && body.msg.Some? ==>
        status == if body.bytes > 16384 then Some(413) else Some(200)
      ensures status != Some(200) ==> kv == old(kv)
      ensures status == Some(200) ==>
        kv == Some(old(kv).value[body.topic.value := Post(old(Thread(body.topic.value)), body.msg.value)])
    {
      if kv.None? {
        return Some(503);
      }
      if body.Null? {
        return None;
      }
      if body.Unreadable? || !GoodTopic(body.topic) || body.msg.None? {
        return Some(400);
      }
      if body.bytes > MSG_MAX_BYTES {
        return Some(413);
      }
      var msg := body.msg.value;
      var thread := Thread(body.topic.value);
      var i := IndexOf(thread, msg.Identity());
      if i < |thread| {
        thread := thread[i := msg];
      } else {
        thread := thread + [msg];
      }
      thread := SortBy(thread, ByTs);
      var capped := if |thread| > THREAD_MAX then thread[|thread| - THREAD_MAX..] else thread;
      kv := Some(kv.value[body.topic.value := capped]);
      return Some(200);
    }

    method OnRequestGet(topic: Option<string>, since: int) returns (status: nat, messages: seq<Envelope>)
      ensures status == (if kv.None? then 503 else if !GoodTopic(topic) then 400 else 200)
      ensures messages == if status == 200 then Since(Thread(topic.value), since) else []
    {
      if kv.None? {
        return 503, [];
      }
      if !GoodTopic(topic) {
        return 400, [];
      }
      return 200, Since(Thread(topic.value), since);
    }
  }

  // ---- what every reachable thread satisfies ------------------------------

  ghost predicate Distinct(thread: seq<Envelope>) {
    forall i, j :: 0 <= i < j < |thread| ==> thread[i].Identity() != thread[j].Identity()
  }

  ghost predicate ValidThread(thread: seq<Envelope>) {
    Distinct(thread) && Sorted(thread, ByTs) && |thread| <= THREAD_MAX
  }

  ghost predicate Absent(thread: seq<Envelope>, id: Id) {
    forall k :: 0 <= k < |thread| ==> thread[k].Identity() != id
  }

  lemma {:induction false} InsertDistinct(x: Envelope, s: seq<Envelope>)
    requires Distinct(s) && Absent(s, x.Identity())
    ensures Distinct(InsertBy(x, s, ByTs))
    ensures forall id :: id != x.Identity() && Absent(s, id) ==> Absent(InsertBy(x, s, ByTs), id)
  {
    if s != [] && !ByTs(x, s[0]) {
      InsertDistinct(x, s[1..]);
      assert Absent(s[1..], s[0].Identity());
      forall id | id != x.Identity() && Absent(s, id) ensures Absent(InsertBy(x, s, ByTs), id) {
        assert Absent(s[1..], id);
      }
    }
  }

  lemma {:induction false} SortDistinct(s: seq<Envelope>)
    requires Distinct(s)
    ensures Distinct(SortBy(s, ByTs))
    ensures forall id :: Absent(s, id) ==> Absent(SortBy(s, ByTs), id)
  {
    if s != [] {
      SortDistinct(s[1..]);
      assert Absent(s[1..], s[0].Identity());
      InsertDistinct(s[0], SortBy(s[1..], ByTs));
      forall id | Absent(s, id) ensures Absent(SortBy(s, ByTs), id) {
        assert Absent(s[1..], id);
      }
    }
  }

  lemma ReplacedHolds(thread: seq<Envelope>, msg: Envelope)
    requires Distinct(thread)
    ensures Distinct(Replaced(thread, msg))
    ensures |Replaced(thread, msg)| == |thread| + (if Absent(thread, msg.Identity()) then 1 else 0)
    ensures forall e :: e in Replaced(thread, msg) <==> e == msg || (e in thread && e.Identity() != msg.Identity())
  {
    var i, next := IndexOf(thread, msg.Identity()), Replaced(thread, msg);
    assert Absent(thread, msg.Identity()) <==> i == |thread|;
    assert next[i] == msg && forall k :: 0 <= k < |thread| && k != i ==> next[k] == thread[k];
    forall e ensures e in next <==> e == msg || (e in thread && e.Identity() != msg.Identity()) {
      if e in thread && e.Identity() != msg.Identity() {
        var k :| 0 <= k < |thread| && thread[k] == e;
        assert next[k] == e;
      }
      if e in next && e != msg {
        var k :| 0 <= k < |next| && next[k] == e;
        assert thread[k] == e;
      }
    }
  }

  /** Before the cut: the post itself, and every envelope of another identity. */
  lemma PlacedHolds(thread: seq<Envelope>, msg: Envelope)
    requires ValidThread(thread)
    ensures Distinct(Placed(thread, msg)) && Sorted(Placed(thread, msg), ByTs)
    ensures |Placed(thread, msg)| == |thread| + (if Absent(thread, msg.Identity()) then 1 else 0)
    ensures forall e :: e in Placed(thread, msg) <==> e == msg || (e in thread && e.Identity() != msg.Identity())
  {
    hide Replaced, SortBy, Distinct;
    ReplacedHolds(thread, msg);
    SortDistinct(Replaced(thread, msg));
    SortBySorted(Replaced(thread, msg), ByTs);
    SortByMembers(Replaced(thread, msg), ByTs);
  }

  /** Every post keeps a valid thread valid. */
  lemma PostValid(thread: seq<Envelope>, msg: Envelope)
    requires ValidThread(thread)
    ensures ValidThread(Post(thread, msg))
  {
    PlacedHolds(thread, msg);
  }

  /** A topic is "0x" and 64 hexadecimal digits. */
  lemma TopicExactly(t: string)
    ensures OkTopic(t) <==> exists d: string :: |d| == 64 && t == "0x" + d && HexDigits(d)
  {
    if OkTopic(t) {
      var d := t[2..];
      assert t == "0x" + d;
      forall k | 0 <= k < 64 ensures d[k] in "0123456789abcdefABCDEF" {
        assert d[k] == t[k + 2];
        DigitListed(d[k]);
      }
      assert HexDigits(d);
    }
    if d: string :| |d| == 64 && t == "0x" + d && HexDigits(d) {
      forall k | 2 <= k < 66 ensures '0' <= t[k] <= '9' || 'a' <= t[k] <= 'f' || 'A' <= t[k] <= 'F' {
        assert t[k] == d[k - 2];
        DigitListed(d[k - 2]);
      }
    }
  }

  ghost predicate HexDigits(d: string) {
    forall k :: 0 <= k < |d| ==> d[k] in "0123456789abcdefABCDEF"
  }

  lemma DigitListed(c: char)
    ensures c in "0123456789abcdefABCDEF" <==> '0' <= c <= '9' || 'a' <= c <= 'f' || 'A' <= c <= 'F'
  {
    var list := "0123456789abcdefABCDEF";
    if '0' <= c <= '9' {
      assert list[c as int - '0' as int] == c;
    }
    if 'a' <= c <= 'f' {
      assert list[c as int - 'a' as int + 10] == c;
    }
    if 'A' <= c <= 'F' {
      assert list[c as int - 'A' as int + 16] == c;
    }
  }

  /** Of a sorted thread the reader is given the newest part, in order and whole. */
  lemma {:induction false} SinceIsSuffix(thread: seq<Envelope>, since: int) returns (k: nat)
    requires Sorted(thread, ByTs)
    ensures k <= |thread| && Since(thread, since) == thread[k..]
    ensures forall j :: 0 <= j < |thread| ==> (j < k <==> thread[j].ts <= since)
  {
    if thread == [] {
      k := 0;
    } else {
      k := SinceIsSuffix(thread[1..], since);
      if thread[0].ts > since {
        assert |thread| > 1 ==> ByTs(thread[0], thread[1]);
        assert k == 0;
      } else {
        k := k + 1;
      }
    }
  }

  // ---- posting twice ------------------------------------------------------

  function Spliced(thread: seq<Envelope>, k: nat, msg: Envelope): seq<Envelope>
    requires k <= |thread|
  {
    thread[..k] + [msg] + thread[k..]
  }

  /** Envelopes before `k` are not younger than `msg`, the others are. */
  ghost predicate Splits(thread: seq<Envelope>, k: nat, msg: Envelope) {
    k <= |thread| && forall j :: 0 <= j < |thread| ==> (j < k <==> thread[j].ts <= msg.ts)
  }

  /** The oldest envelope goes back to the front, or right after a new one that is older. */
  lemma OldestBack(t: Envelope, rest: seq<Envelope>, msg: Envelope, q: nat) returns (k: nat)
    requires Splits(rest, q, msg) && forall j :: 0 <= j < |rest| ==> t.ts <= rest[j].ts
    ensures Splits([t] + rest, k, msg)
    ensures InsertBy(t, Spliced(rest, q, msg), ByTs) == Spliced([t] + rest, k, msg)
  {
    if t.ts > msg.ts {
      k := 0;
      assert rest != [] ==> t.ts <= rest[0].ts;
      assert q == 0 && Spliced(rest, 0, msg) == [msg] + rest && ([msg] + rest)[1..] == rest;
      assert InsertBy(t, rest, ByTs) == [t] + rest;
    } else {
      k := q + 1;
      assert ByTs(t, Spliced(rest, q, msg)[0]);
    }
  }

  /** A new envelope goes after every one that is not younger, ties included. */
  lemma {:induction false} SortAppend(thread: seq<Envelope>, msg: Envelope) returns (k: nat)
    requires Sorted(thread, ByTs)
    ensures k <= |thread| && SortBy(thread + [msg], ByTs) == thread[..k] + [msg] + thread[k..]
    ensures forall j :: 0 <= j < |thread| ==> (j < k <==> thread[j].ts <= msg.ts)
  {
    if thread == [] {
      k := 0;
      assert [] + [msg] == [msg] && [msg][1..] == [];
    } else {
      hide InsertBy;
      assert thread == [thread[0]] + thread[1..] && (thread + [msg])[1..] == thread[1..] + [msg];
      k := SortAppend(thread[1..], msg);
      k := OldestBack(thread[0], thread[1..], msg, k);
    }
  }

  lemma {:induction false} IndexOfPresent(thread: seq<Envelope>, msg: Envelope)
    requires Distinct(thread) && msg in thread
    ensures IndexOf(thread, msg.Identity()) < |thread|
    ensures thread[IndexOf(thread, msg.Identity()) := msg] == thread
  {
    var k :| 0 <= k < |thread| && thread[k] == msg;
    var i := IndexOf(thread, msg.Identity());
    assert i == k;
  }

  /** A repost of what the thread holds changes nothing. */
  lemma RepostHeld(thread: seq<Envelope>, msg: Envelope)
    requires ValidThread(thread) && msg in thread
    ensures Post(thread, msg) == thread
  {
    IndexOfPresent(thread, msg);
    SortByFixes(thread, ByTs);
  }

  /** Posting an envelope twice in a row is posting it once, also when the cap drops it at
      once and when it ties on `ts`. */
  lemma PostTwice(thread: seq<Envelope>, msg: Envelope)
    requires ValidThread(thread)
    ensures Post(Post(thread, msg), msg) == Post(thread, msg)
  {
    var after := Post(thread, msg);
    PostValid(thread, msg);
    if msg in after {
      RepostHeld(after, msg);
    } else {
      DroppedAtOnce(thread, msg);
    }
  }

  lemma AfterFirst(s: seq<Envelope>, k: nat)
    requires 0 < k < |s|
    ensures s[k] in s[1..]
  {
    assert s[1..][k - 1] == s[k];
  }

  /** A post is dropped at once only by a full thread that is younger throughout, which it
      leaves as it was. */
  lemma DroppedAtOnce(thread: seq<Envelope>, msg: Envelope)
    requires ValidThread(thread) && msg !in Post(thread, msg)
    ensures Post(thread, msg) == thread && |thread| == THREAD_MAX
    ensures forall j :: 0 <= j < |thread| ==> msg.ts < thread[j].ts
  {
    PlacedHolds(thread, msg);
    var placed := Placed(thread, msg);
    assert msg in placed;
    assert |placed| == THREAD_MAX + 1 && Absent(thread, msg.Identity());
    PlacedNew(thread, msg);
    var k := SortAppend(thread, msg);
    assert placed == thread[..k] + [msg] + thread[k..];
    if k > 0 {
      AfterFirst(placed, k);
    }
    assert thread[..0] + [msg] + thread[0..] == [msg] + thread;
  }

  // ---- the newest posts of an unbounded log -------------------------------

  /** The unbounded log: the latest post of every identity. */
  function Latest(posts: seq<Envelope>): map<Id, Envelope> {
    if posts == [] then map[]
    else
      var n := |posts| - 1;
      Latest(posts[..n])[posts[n].Identity() := posts[n]]
  }

  function ThreadAfter(posts: seq<Envelope>): seq<Envelope> {
    if posts == [] then []
    else Post(ThreadAfter(posts[..|posts| - 1]), posts[|posts| - 1])
  }

  ghost predicate Oldest(thread: seq<Envelope>, ts: int) {
    forall e :: e in thread ==> ts <= e.ts
  }

  /** The thread holds latest posts only, and an identity is missing only if the thread is
      full and that identity's post is no younger than any it holds. */
  ghost predicate HoldsNewest(thread: seq<Envelope>, log: map<Id, Envelope>) {
    && (forall e :: e in thread ==> e.Identity() in log && log[e.Identity()] == e)
    && (forall id :: id in log && log[id] !in thread ==> |thread| == THREAD_MAX && Oldest(thread, log[id].ts))
  }

  ghost predicate LogKeyed(log: map<Id, Envelope>) {
    forall id :: id in log ==> log[id].Identity() == id
  }

  /** A repost of a held identity must not fall behind any post the thread lacks. */
  ghost predicate KeepsUp(thread: seq<Envelope>, log: map<Id, Envelope>, msg: Envelope) {
    !Absent(thread, msg.Identity()) ==>
      forall id :: id in log && log[id] !in thread ==> log[id].ts <= msg.ts
  }

  lemma ReplaceStep(thread: seq<Envelope>, log: map<Id, Envelope>, msg: Envelope)
    requires ValidThread(thread) && LogKeyed(log) && HoldsNewest(thread, log) && !Absent(thread, msg.Identity())
    ensures HoldsNewest(Post(thread, msg), log[msg.Identity() := msg]) <==> KeepsUp(thread, log, msg)
  {
    hide Replaced, SortBy;
    PlacedHolds(thread, msg);
    var after, log' := Post(thread, msg), log[msg.Identity() := msg];
    assert after == Placed(thread, msg) && msg in after;
    forall id | id in log && id != msg.Identity() ensures log[id] in after <==> log[id] in thread {
    }
    if HoldsNewest(after, log') {
      forall id | id in log && log[id] !in thread ensures log[id].ts <= msg.ts {
        assert id != msg.Identity() by {
          var k :| 0 <= k < |thread| && thread[k].Identity() == msg.Identity();
          assert thread[k] in thread;
        }
        assert log'[id] == log[id];
      }
    }
  }

  lemma AppendStep(thread: seq<Envelope>, log: map<Id, Envelope>, msg: Envelope)
    requires ValidThread(thread) && LogKeyed(log) && HoldsNewest(thread, log) && Absent(thread, msg.Identity())
    ensures HoldsNewest(Post(thread, msg), log[msg.Identity() := msg])
  {
    if |thread| < THREAD_MAX {
      AppendBelow(thread, log, msg);
    } else {
      AppendAndCut(thread, log, msg);
    }
  }

  lemma AppendBelow(thread: seq<Envelope>, log: map<Id, Envelope>, msg: Envelope)
    requires ValidThread(thread) && LogKeyed(log) && HoldsNewest(thread, log) && Absent(thread, msg.Identity())
    requires |thread| < THREAD_MAX
    ensures HoldsNewest(Post(thread, msg), log[msg.Identity() := msg])
  {
    hide Placed;
    PlacedHolds(thread, msg);
    AbsentMembers(thread, msg.Identity());
    assert Post(thread, msg) == Placed(thread, msg);
  }

  lemma AbsentMembers(thread: seq<Envelope>, id: Id)
    requires Absent(thread, id)
    ensures forall e :: e in thread ==> e.Identity() != id
  {
  }

  lemma AppendAndCut(thread: seq<Envelope>, log: map<Id, Envelope>, msg: Envelope)
    requires ValidThread(thread) && LogKeyed(log) && HoldsNewest(thread, log) && Absent(thread, msg.Identity())
    requires |thread| == THREAD_MAX
    ensures HoldsNewest(Post(thread, msg), log[msg.Identity() := msg])
  {
    hide Placed, Post, ByTs;
    PlacedHolds(thread, msg);
    AbsentMembers(thread, msg.Identity());
    var placed, after, log' := Placed(thread, msg), Post(thread, msg), log[msg.Identity() := msg];
    CutStep(thread, msg);
    assert placed == [placed[0]] + after;
    forall id | id in log' && log'[id] !in after ensures Oldest(after, log'[id].ts) {
      if log'[id] != placed[0] {
        assert log'[id] !in placed;
        assert id != msg.Identity() && log[id] !in thread;
        assert thread[0] in thread && log[id].ts <= thread[0].ts;
      }
    }
  }

  /** Cutting a full thread drops an envelope no younger than those that stay, and what
      stays is no older than the thread was. */
  lemma CutStep(thread: seq<Envelope>, msg: Envelope)
    requires ValidThread(thread) && |thread| == THREAD_MAX && Absent(thread, msg.Identity())
    ensures |Placed(thread, msg)| == THREAD_MAX + 1 && Post(thread, msg) == Placed(thread, msg)[1..]
    ensures Oldest(Post(thread, msg), Placed(thread, msg)[0].ts) && Oldest(Post(thread, msg), thread[0].ts)
  {
    PlacedNew(thread, msg);
    PlacedHolds(thread, msg);
    hide Placed, SortBy, Sorted;
    var placed := Placed(thread, msg);
    var k := SortAppend(thread, msg);
    OldestFirst(placed);
    OldestFirst(thread);
    if k == 0 {
      assert thread[..0] + [msg] + thread[0..] == [msg] + thread;
      assert placed[1..] == thread;
    } else {
      assert placed[0] == thread[0];
    }
  }

  lemma {:induction false} PlacedNew(thread: seq<Envelope>, msg: Envelope)
    requires Absent(thread, msg.Identity())
    ensures Placed(thread, msg) == SortBy(thread + [msg], ByTs)
  {
    hide SortBy;
  }

  lemma OldestFirst(s: seq<Envelope>)
    requires Sorted(s, ByTs) && s != []
    ensures Oldest(s, s[0].ts) && Oldest(s[1..], s[0].ts)
  {
    forall e | e in s ensures s[0].ts <= e.ts {
      var j :| 0 <= j < |s| && s[j] == e;
      assert j == 0 || ByTs(s[0], s[j]);
    }
  }

  /** Exactly when one post keeps the thread a newest selection of the log. */
  lemma PostKeepsNewestExactly(thread: seq<Envelope>, log: map<Id, Envelope>, msg: Envelope)
    requires ValidThread(thread) && LogKeyed(log) && HoldsNewest(thread, log)
    ensures HoldsNewest(Post(thread, msg), log[msg.Identity() := msg]) <==> KeepsUp(thread, log, msg)
  {
    if Absent(thread, msg.Identity()) {
      AppendStep(thread, log, msg);
    } else {
      ReplaceStep(thread, log, msg);
    }
  }

  /** Reposts of one identity never lower its timestamp. */
  ghost predicate NeverLower(posts: seq<Envelope>) {
    forall i, j :: 0 <= i < j < |posts| && posts[i].Identity() == posts[j].Identity() ==> posts[i].ts <= posts[j].ts
  }

  lemma {:induction false} LatestIsPosted(posts: seq<Envelope>)
    ensures LogKeyed(Latest(posts))
    ensures forall id :: id in Latest(posts) ==> Latest(posts)[id] in posts
    ensures forall e :: e in posts ==> e.Identity() in Latest(posts)
  {
    if posts != [] {
      var n := |posts| - 1;
      LatestIsPosted(posts[..n]);
      assert posts == posts[..n] + [posts[n]];
    }
  }

  lemma NothingPosted()
    ensures ThreadAfter([]) == [] && Latest([]) == map[]
    ensures ValidThread([]) && HoldsNewest([], map[])
  {
  }

  /** Over every run in which reposts never lower `ts`, the bounded thread is a selection of
      the newest posts of the unbounded log. */
  lemma {:induction false} RunKeepsNewest(posts: seq<Envelope>)
    requires NeverLower(posts)
    ensures ValidThread(ThreadAfter(posts)) && HoldsNewest(ThreadAfter(posts), Latest(posts))
  {
    hide ThreadAfter, Latest, Post, ValidThread, HoldsNewest, KeepsUp;
    if posts == [] {
      NothingPosted();
    } else {
      var n := |posts| - 1;
      var before, msg := posts[..n], posts[n];
      LastPost(posts);
      RunKeepsNewest(before);
      LatestIsPosted(before);
      PostValid(ThreadAfter(before), msg);
      RepostKeepsUp(posts);
      PostKeepsNewestExactly(ThreadAfter(before), Latest(before), msg);
    }
  }

  lemma RepostKeepsUp(posts: seq<Envelope>)
    requires posts != [] && NeverLower(posts)
    requires HoldsNewest(ThreadAfter(posts[..|posts| - 1]), Latest(posts[..|posts| - 1]))
    ensures KeepsUp(ThreadAfter(posts[..|posts| - 1]), Latest(posts[..|posts| - 1]), posts[|posts| - 1])
  {
    hide ThreadAfter, Latest;
    var n := |posts| - 1;
    var thread, log, msg := ThreadAfter(posts[..n]), Latest(posts[..n]), posts[n];
    if !Absent(thread, msg.Identity()) {
      var k :| 0 <= k < |thread| && thread[k].Identity() == msg.Identity();
      assert thread[k] in thread && log[msg.Identity()] == thread[k];
      LatestIsPosted(posts[..n]);
      var j :| 0 <= j < n && posts[..n][j] == thread[k];
      assert posts[j].Identity() == posts[n].Identity();
    }
  }

  // ---- a repost that lowers its timestamp ---------------------------------

  /** `n` chats of one sender, with timestamps 1 to n. */
  function Counting(n: nat): (posts: seq<Envelope>)
    ensures |posts| == n
    ensures forall k :: 0 <= k < n ==> posts[k] == Envelope("0xa", k, "chat", k + 1, None, None, None, None, None)
  {
    seq(n, k => Envelope("0xa", k, "chat", k + 1, None, None, None, None, None))
  }

  lemma PostYounger(thread: seq<Envelope>, msg: Envelope)
    requires Sorted(thread, ByTs) && Absent(thread, msg.Identity())
    requires forall k :: 0 <= k < |thread| ==> thread[k].ts <= msg.ts
    ensures Post(thread, msg) == Newest(thread + [msg])
  {
    SortByFixes(thread + [msg], ByTs);
  }

  lemma NewestOfAppend(s: seq<Envelope>, msg: Envelope)
    ensures Newest(Newest(s) + [msg]) == Newest(s + [msg])
  {
    if |s| > THREAD_MAX {
      var k := |s| - THREAD_MAX;
      assert Newest(s + [msg]) == (s + [msg])[k + 1..] == s[k + 1..] + [msg];
      assert Newest(s[k..] + [msg]) == (s[k..] + [msg])[1..];
    }
  }

  lemma NewestAt(s: seq<Envelope>)
    ensures |Newest(s)| <= |s| && Newest(s) == s[|s| - |Newest(s)|..]
  {
  }

  lemma CountingStep(n: nat)
    ensures Counting(n + 1) == Counting(n) + [Counting(n + 1)[n]]
    ensures var thread := Newest(Counting(n));
      && Sorted(thread, ByTs) && Absent(thread, Counting(n + 1)[n].Identity())
      && forall k :: 0 <= k < |thread| ==> thread[k].ts <= n
  {
    hide Newest, Counting;
    NewestAt(Counting(n));
    var thread, j := Newest(Counting(n)), n - |Newest(Counting(n))|;
    forall k | 0 <= k < |thread|
      ensures thread[k] == Envelope("0xa", j + k, "chat", j + k + 1, None, None, None, None, None)
    {
      assert thread[k] == Counting(n)[j + k];
    }
  }

  /** Posts that are younger each time fill the thread and then push out the oldest. */
  lemma {:induction false} CountingKeepsLast(n: nat)
    ensures ThreadAfter(Counting(n)) == Newest(Counting(n))
  {
    hide Newest, Post, Counting;
    if n > 0 {
      var msg := Counting(n)[n - 1];
      CountingKeepsLast(n - 1);
      CountingStep(n - 1);
      assert Counting(n)[..n - 1] == Counting(n - 1);
      PostYounger(Newest(Counting(n - 1)), msg);
      NewestOfAppend(Counting(n - 1), msg);
    } else {
      NothingNewest();
    }
  }

  lemma NothingNewest()
    ensures Newest(Counting(0)) == []
  {
  }

  lemma {:induction false} FullOfChats()
    ensures ThreadAfter(Counting(201)) == Counting(201)[1..]
  {
    CountingKeepsLast(201);
  }

  lemma CountingHolds()
    ensures var posts := Counting(201);
      && NeverLower(posts) && posts[0] !in posts[1..] && posts[200] in posts[1..]
      && forall j :: 0 < j < 201 ==> posts[j].Identity() != posts[0].Identity()
  {
    assert Counting(201)[1..][199] == Counting(201)[200];
  }

  lemma {:induction false} LatestOfFirst(posts: seq<Envelope>)
    requires posts != [] && forall j :: 0 < j < |posts| ==> posts[j].Identity() != posts[0].Identity()
    ensures posts[0].Identity() in Latest(posts) && Latest(posts)[posts[0].Identity()] == posts[0]
  {
    var n := |posts| - 1;
    if n > 0 {
      LatestOfFirst(posts[..n]);
    }
  }

  /** A repost older than a latest post the thread lacks leaves the older one in its place. */
  lemma {:induction false} RepostTooOld(posts: seq<Envelope>, msg: Envelope, id: Id)
    requires NeverLower(posts) && !Absent(ThreadAfter(posts), msg.Identity())
    requires id in Latest(posts) && Latest(posts)[id] !in ThreadAfter(posts) && Latest(posts)[id].ts > msg.ts
    ensures HoldsNewest(ThreadAfter(posts), Latest(posts))
    ensures !HoldsNewest(ThreadAfter(posts + [msg]), Latest(posts + [msg]))
  {
    hide ThreadAfter, Post, Latest, HoldsNewest, NeverLower, ValidThread;
    RunKeepsNewest(posts);
    LatestIsPosted(posts);
    PostKeepsNewestExactly(ThreadAfter(posts), Latest(posts), msg);
    assert (posts + [msg])[..|posts|] == posts;
    LastPost(posts + [msg]);
  }

  /** 201 chats, then the last again with timestamp 0: the thread lacks the first chat, of
      timestamp 1, and holds the older repost. */
  lemma {:induction false} LoweredTimestamp()
    ensures var posts := Counting(201) + [Counting(201)[200].(ts := 0)];
      !HoldsNewest(ThreadAfter(posts), Latest(posts))
    ensures HoldsNewest(ThreadAfter(Counting(201)), Latest(Counting(201)))
  {
    hide ThreadAfter, Latest, HoldsNewest, NeverLower;
    var before := Counting(201);
    FullOfChats();
    CountingHolds();
    LatestOfFirst(before);
    var k :| 0 <= k < |before[1..]| && before[1..][k] == before[200];
    RepostTooOld(before, before[200].(ts := 0), before[0].Identity());
  }

  lemma {:induction false} LastPost(posts: seq<Envelope>)
    requires posts != []
    ensures var n := |posts| - 1;
      ThreadAfter(posts) == Post(ThreadAfter(posts[..n]), posts[n]) && Latest(posts) == Latest(posts[..n])[posts[n].Identity() := posts[n]]
  {
  }

  lemma {:induction false} PostedLast(posts: seq<Envelope>, msg: Envelope)
    ensures ThreadAfter(posts + [msg]) == Post(ThreadAfter(posts), msg)
    ensures Latest(posts + [msg]) == Latest(posts)[msg.Identity() := msg]
  {
    assert (posts + [msg])[..|posts|] == posts;
  }

  /** Whatever timestamps are posted: validity over every run, and no post from outside it. */
  lemma {:induction false} RunValid(posts: seq<Envelope>)
    ensures ValidThread(ThreadAfter(posts))
    ensures forall e :: e in ThreadAfter(posts) ==> e in posts
  {
    hide ThreadAfter, Latest, Post, ValidThread;
    if posts == [] {
      NothingPosted();
    } else {
      var n := |posts| - 1;
      LastPost(posts);
      RunValid(posts[..n]);
      PostValid(ThreadAfter(posts[..n]), posts[n]);
      PostedOrHeld(ThreadAfter(posts[..n]), posts[n]);
      assert posts == posts[..n] + [posts[n]];
    }
  }

  /** Whatever timestamps are posted, what the thread holds is the latest of its identity. */
  lemma {:induction false} HeldIsLatest(posts: seq<Envelope>)
    ensures forall e :: e in ThreadAfter(posts) ==> e.Identity() in Latest(posts) && Latest(posts)[e.Identity()] == e
  {
    hide ThreadAfter, Latest, Post;
    if posts == [] {
      NothingPosted();
    } else {
      var n := |posts| - 1;
      LastPost(posts);
      HeldIsLatest(posts[..n]);
      RunValid(posts[..n]);
      PostedOrHeld(ThreadAfter(posts[..n]), posts[n]);
    }
  }

  lemma PostedOrHeld(thread: seq<Envelope>, msg: Envelope)
    requires ValidThread(thread)
    ensures forall e :: e in Post(thread, msg) ==> e == msg || (e in thread && e.Identity() != msg.Identity())
  {
    PlacedHolds(thread, msg);
  }

  /** The latest post of an identity is the one no later post shares it with. */
  lemma {:induction false} LatestIsLast(before: seq<Envelope>, msg: Envelope, later: seq<Envelope>)
    requires forall e :: e in later ==> e.Identity() != msg.Identity()
    ensures msg.Identity() in Latest(before + [msg] + later) && Latest(before + [msg] + later)[msg.Identity()] == msg
    decreases |later|
  {
    hide Latest;
    var run := before + [msg] + later;
    var n := |run| - 1;
    LastPost(run);
    if later == [] {
      assert run[n] == msg;
    } else {
      var m := |later| - 1;
      assert run[..n] == before + [msg] + later[..m] && run[n] == later[m] && later[m] in later;
      LatestIsLast(before, msg, later[..m]);
    }
  }

  /** The identities whose latest post is no older than `ts`. */
  ghost function YoungAs(log: map<Id, Envelope>, ts: int): set<Id> {
    set id | id in log && log[id].ts >= ts
  }

  ghost function Ids(thread: seq<Envelope>): set<Id> {
    set k | 0 <= k < |thread| :: thread[k].Identity()
  }

  lemma {:induction false} DistinctIdCount(thread: seq<Envelope>)
    requires Distinct(thread)
    ensures |Ids(thread)| == |thread|
  {
    if thread == [] {
      assert Ids(thread) == {};
    } else {
      var n := |thread| - 1;
      DistinctIdCount(thread[..n]);
      assert Ids(thread) == Ids(thread[..n]) + {thread[n].Identity()};
    }
  }

  lemma {:induction false} SubsetCount(a: set<Id>, b: set<Id>)
    requires a <= b
    ensures |a| <= |b|
  {
    if a != {} {
      var x :| x in a;
      SubsetCount(a - {x}, b - {x});
    }
  }

  /** A latest post that at most 199 others match or beat in age is held, over every run in
      which reposts never lower `ts`. */
  lemma {:induction false} YoungIsHeld(posts: seq<Envelope>, e: Envelope)
    requires NeverLower(posts) && e.Identity() in Latest(posts) && Latest(posts)[e.Identity()] == e
    requires |YoungAs(Latest(posts), e.ts)| <= THREAD_MAX
    ensures e in ThreadAfter(posts)
  {
    hide ThreadAfter, Latest, NeverLower;
    RunKeepsNewest(posts);
    var thread, young := ThreadAfter(posts), YoungAs(Latest(posts), e.ts);
    if e !in thread {
      DistinctIdCount(thread);
      forall id | id in Ids(thread) ensures id in young - {e.Identity()} {
        var k :| 0 <= k < |thread| && thread[k].Identity() == id;
        assert thread[k] in thread;
      }
      SubsetCount(Ids(thread), young - {e.Identity()});
      assert false;
    }
  }

  /** While no more than 200 identities were posted, nothing is ever lost, even when reposts
      lower their timestamps. */
  lemma {:induction false} NothingLost(posts: seq<Envelope>)
    requires |Latest(posts)| <= THREAD_MAX
    ensures |ThreadAfter(posts)| == |Latest(posts)|
    ensures forall e :: e in ThreadAfter(posts) <==> e.Identity() in Latest(posts) && Latest(posts)[e.Identity()] == e
  {
    if posts != [] {
      var n := |posts| - 1;
      var thread, log, msg := ThreadAfter(posts[..n]), Latest(posts[..n]), posts[n];
      LastPost(posts);
      hide ThreadAfter, Latest, Placed;
      assert |log| <= |Latest(posts)| by {
        assert Latest(posts).Keys == log.Keys + {msg.Identity()};
      }
      NothingLost(posts[..n]);
      RunValid(posts[..n]);
      LatestIsPosted(posts[..n]);
      PlacedHolds(thread, msg);
      AbsentFromBoth(thread, log, msg.Identity());
    }
  }

  lemma AbsentFromBoth(thread: seq<Envelope>, log: map<Id, Envelope>, id: Id)
    requires LogKeyed(log)
    requires forall e :: e in thread <==> e.Identity() in log && log[e.Identity()] == e
    ensures Absent(thread, id) <==> id !in log
  {
    if id in log {
      assert log[id] in thread;
      var k :| 0 <= k < |thread| && thread[k] == log[id];
    }
    if !Absent(thread, id) {
      var k :| 0 <= k < |thread| && thread[k].Identity() == id;
      assert thread[k] in thread;
    }
  }

  // ---- envelopes without a number for a timestamp -------------------------

  /** The endpoint does not check `ts`.  While an envelope without one is in the thread, the
      comparison is not an order and the sort may leave any arrangement. */
  ghost predicate MayBecome(dated: Envelope -> bool, thread: seq<Envelope>, msg: Envelope, after: seq<Envelope>) {
    exists p: seq<Envelope> :: Arranged(dated, Replaced(thread, msg), p) && after == Newest(p)
  }

  ghost predicate Arranged(dated: Envelope -> bool, s: seq<Envelope>, p: seq<Envelope>) {
    multiset(p) == multiset(s) && (AllDated(dated, s) ==> p == SortBy(s, ByTs))
  }

  ghost predicate AllDated(dated: Envelope -> bool, s: seq<Envelope>) {
    forall e :: e in s ==> dated(e)
  }

  ghost predicate MayRun(dated: Envelope -> bool, posts: seq<Envelope>, threads: seq<seq<Envelope>>) {
    && |threads| == |posts| + 1 && threads[0] == []
    && forall k :: 0 <= k < |posts| ==> MayBecome(dated, threads[k], posts[k], threads[k + 1])
  }

  lemma TwicePlaces(s: seq<Envelope>, x: Envelope) returns (i: nat, j: nat)
    requires multiset(s)[x] >= 2
    ensures i < j < |s| && s[i] == x == s[j]
  {
    assert x in s;
    i :| 0 <= i < |s| && s[i] == x && x !in s[..i] by {
      FirstPlace(s, x);
    }
    assert s == s[..i] + [s[i]] + s[i + 1..];
    assert multiset(s) == multiset(s[..i]) + multiset{x} + multiset(s[i + 1..]);
    assert x in s[i + 1..];
    var k :| 0 <= k < |s[i + 1..]| && s[i + 1..][k] == x;
    j := i + 1 + k;
  }

  lemma {:induction false} FirstPlace(s: seq<Envelope>, x: Envelope)
    requires x in s
    ensures exists i :: 0 <= i < |s| && s[i] == x && x !in s[..i]
  {
    var n := |s| - 1;
    if x in s[..n] {
      FirstPlace(s[..n], x);
      var i :| 0 <= i < n && s[..n][i] == x && x !in s[..n][..i];
      assert s[..n][..i] == s[..i];
    } else {
      assert s[n] == x;
    }
  }

  lemma PermutedDistinct(s: seq<Envelope>, p: seq<Envelope>)
    requires Distinct(s) && multiset(p) == multiset(s)
    ensures Distinct(p) && forall e :: e in p <==> e in s
  {
    forall e ensures e in p <==> e in s {
      assert e in p <==> e in multiset(p);
      assert e in s <==> e in multiset(s);
    }
    forall i, j | 0 <= i < j < |p| ensures p[i].Identity() != p[j].Identity() {
      if p[i] == p[j] {
        assert p == p[..j] + [p[j]] + p[j + 1..] && p[..j][i] == p[i];
        assert multiset(p) == multiset(p[..j]) + multiset{p[j]} + multiset(p[j + 1..]);
        var a, b := TwicePlaces(s, p[i]);
      } else {
        assert p[i] in p && p[j] in p;
        var a :| 0 <= a < |s| && s[a] == p[i];
        var b :| 0 <= b < |s| && s[b] == p[j];
      }
    }
  }

  lemma LooseStep(dated: Envelope -> bool, thread: seq<Envelope>, msg: Envelope, after: seq<Envelope>)
    requires Distinct(thread) && MayBecome(dated, thread, msg, after)
    ensures Distinct(after) && |after| <= THREAD_MAX
    ensures forall e :: e in after ==> e == msg || e in thread
    ensures AllDated(dated, Replaced(thread, msg)) ==> after == Post(thread, msg) && Sorted(after, ByTs)
  {
    hide Replaced, Distinct, SortBy;
    var p :| Arranged(dated, Replaced(thread, msg), p) && after == Newest(p);
    ReplacedHolds(thread, msg);
    PermutedDistinct(Replaced(thread, msg), p);
    NewestDistinct(p);
    SortBySorted(Replaced(thread, msg), ByTs);
  }

  lemma NewestDistinct(p: seq<Envelope>)
    requires Distinct(p)
    ensures Distinct(Newest(p)) && forall e :: e in Newest(p) ==> e in p
  {
  }

  /** One envelope per identity, at most 200, and none that was not posted. */
  ghost predicate LooseValid(thread: seq<Envelope>, posted: seq<Envelope>) {
    Distinct(thread) && |thread| <= THREAD_MAX && forall e :: e in thread ==> e in posted
  }

  lemma LooseKept(dated: Envelope -> bool, thread: seq<Envelope>, posted: seq<Envelope>, msg: Envelope, after: seq<Envelope>)
    requires LooseValid(thread, posted) && MayBecome(dated, thread, msg, after)
    ensures LooseValid(after, posted + [msg])
  {
    hide MayBecome;
    LooseStep(dated, thread, msg, after);
  }

  /** Over every run, whatever the sort does with envelopes that carry no number. */
  lemma {:induction false} LooseRunValid(dated: Envelope -> bool, posts: seq<Envelope>, threads: seq<seq<Envelope>>, n: nat)
    requires MayRun(dated, posts, threads) && n <= |posts|
    ensures LooseValid(threads[n], posts[..n])
  {
    if n > 0 {
      hide MayBecome, LooseValid;
      LooseRunValid(dated, posts, threads, n - 1);
      assert MayBecome(dated, threads[n - 1], posts[n - 1], threads[n - 1 + 1]);
      LooseKept(dated, threads[n - 1], posts[..n - 1], posts[n - 1], threads[n]);
      assert posts[..n] == posts[..n - 1] + [posts[n - 1]];
    }
  }

  /** As soon as all that are held and posted carry a number, the thread is sorted again and
      is what `Post` says. */
  lemma {:induction false} LooseRunSorted(dated: Envelope -> bool, posts: seq<Envelope>, threads: seq<seq<Envelope>>, n: nat)
    requires MayRun(dated, posts, threads) && n < |posts|
    requires AllDated(dated, Replaced(threads[n], posts[n]))
    ensures threads[n + 1] == Post(threads[n], posts[n]) && Sorted(threads[n + 1], ByTs)
  {
    hide MayBecome, Replaced, Post;
    LooseRunValid(dated, posts, threads, n);
    LooseStep(dated, threads[n], posts[n], threads[n + 1]);
  }

  /** Locations are sent with sequence number 0, so a thread never holds two of one sender. */
  lemma {:induction false} OneLocationPerSender(posts: seq<Envelope>, i: nat, j: nat)
    requires forall e :: e in posts && e.kind == "loc" ==> e.seqNo == 0
    requires i < j < |ThreadAfter(posts)|
    requires ThreadAfter(posts)[i].kind == "loc" == ThreadAfter(posts)[j].kind
    ensures ThreadAfter(posts)[i].from != ThreadAfter(posts)[j].from
  {
    RunValid(posts);
    assert ThreadAfter(posts)[i] in ThreadAfter(posts) && ThreadAfter(posts)[j] in ThreadAfter(posts);
    assert ThreadAfter(posts)[i].Identity() != ThreadAfter(posts)[j].Identity();
  }
}
