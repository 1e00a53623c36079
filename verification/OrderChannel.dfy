/** The order thread's client (web/src/channel.ts, class `OrderThread`): it learns the
    peer's key from the mailbox, opens each chat once, and surfaces newer locations.  */
module OrderChannel {
  import opened Wrappers
  import opened Text
  import opened Mailbox

  /** The cryptography, as partial functions: None where the source's call throws. */
  datatype Crypto = Crypto(
    addressOf: string -> Option<string>,                  // computeAddress(pub)
    recover: (string, string) -> Option<string>,          // verifyMessage(commit, sig)
    sign: string -> string,                               // signMessage under my own key
    seal: (string, string) -> (string, string),           // sealMessage to a key: (iv, ct)
    open: (string, string, string) -> Option<string>,     // openMessage under a key
    parseLoc: string -> Option<(int, int)>)               // finite lat and lon, or nothing

  datatype MsgId = MsgId(from: string, seqNo: int)

  datatype ChatMsg = ChatMsg(from: string, text: string, ts: int, mine: bool)

  /** An opened chat together with the id it was remembered under. */
  datatype Delivery = Delivery(id: MsgId, msg: ChatMsg)

  datatype Loc = Loc(lat: int, lon: int, ts: int)

  /** A string field counts as present only if it is not empty. */
  predicate Present(o: Option<string>) {
    o.Some? && o.value != ""
  }

  predicate SameAddress(a: string, b: string) {
    Lower(a) == Lower(b)
  }

  function ChatId(e: Envelope): MsgId {
    MsgId(e.from, e.seqNo)
  }

  predicate Sealed(e: Envelope) {
    Present(e.iv) && Present(e.ct)
  }

  // ---- pass 1: the peer's key and commitment ------------------------------

  predicate DerivesTo(c: Crypto, pub: string, peer: string) {
    c.addressOf(pub).Some? && SameAddress(c.addressOf(pub).value, peer)
  }

  predicate PeerHello(c: Crypto, peer: string, e: Envelope) {
    e.kind == "hello" && Present(e.pub) && DerivesTo(c, e.pub.value, peer)
  }

  predicate SignedCommit(c: Crypto, peer: string, e: Envelope) {
    Present(e.commit) && Present(e.commitSig) &&
    c.recover(e.commit.value, e.commitSig.value).Some? &&
    SameAddress(c.recover(e.commit.value, e.commitSig.value).value, peer)
  }

  datatype Keys = Keys(pub: Option<string>, commit: Option<string>)
  {
    predicate Complete() { pub.Some? && commit.Some? }
  }

  function AdoptOne(c: Crypto, peer: string, k: Keys, e: Envelope): Keys {
    if !PeerHello(c, peer, e) then k
    else Keys(if k.pub.None? then e.pub else k.pub,
              if k.commit.None? && SignedCommit(c, peer, e) then e.commit else k.commit)
  }

  function Adopt(c: Crypto, peer: string, k: Keys, thread: seq<Envelope>): Keys
    decreases |thread|
  {
    if thread == [] || k.Complete() then k
    else Adopt(c, peer, AdoptOne(c, peer, k, thread[0]), thread[1..])
  }

  // ---- pass 2: new chats --------------------------------------------------

  datatype Read = Read(seen: set<MsgId>, out: seq<Delivery>)

  function ReadOne(c: Crypto, peer: string, pub: Option<string>, r: Read, e: Envelope): Read {
    if e.kind != "chat" || ChatId(e) in r.seen then r
    else if !SameAddress(e.from, peer) then r.(seen := r.seen + {ChatId(e)})
    else if pub.None? || !Sealed(e) then r
    else
      var text := c.open(pub.value, e.iv.value, e.ct.value);
      Read(r.seen + {ChatId(e)},
           if text.Some? then r.out + [Delivery(ChatId(e), ChatMsg(e.from, text.value, e.ts, false))] else r.out)
  }

  function ReadAll(c: Crypto, peer: string, pub: Option<string>, r: Read, thread: seq<Envelope>): Read
    decreases |thread|
  {
    if thread == [] then r
    else ReadAll(c, peer, pub, ReadOne(c, peer, pub, r, thread[0]), thread[1..])
  }

  // ---- pass 3: the newest location ----------------------------------------

  predicate PeerLoc(peer: string, e: Envelope) {
    e.kind == "loc" && SameAddress(e.from, peer) && Sealed(e)
  }

  function NewestLoc(peer: string, best: Option<Envelope>, thread: seq<Envelope>): Option<Envelope>
    decreases |thread|
  {
    if thread == [] then best
    else
      var e := thread[0];
      NewestLoc(peer, if PeerLoc(peer, e) && (best.None? || e.ts > best.value.ts) then Some(e) else best, thread[1..])
  }

  function OpenLoc(c: Crypto, pub: string, e: Envelope): Option<Loc>
    requires Sealed(e)
  {
    var text := c.open(pub, e.iv.value, e.ct.value);
    if text.None? then None
    else
      var p := c.parseLoc(text.value);
      if p.None? then None else Some(Loc(p.value.0, p.value.1, e.ts))
  }

  // ---- one poll -----------------------------------------------------------

  /** What a poll reads and writes: keys, ids already handled, the location watermark, and
      the locations handed to the listener so far. */
  datatype Reader = Reader(keys: Keys, seen: set<MsgId>, lastLocTs: int, locs: seq<Loc>)

  const START: Reader := Reader(Keys(None, None), {}, 0, [])

  lemma {:induction false} NewestLocSealed(peer: string, best: Option<Envelope>, thread: seq<Envelope>)
    requires best.Some? ==> PeerLoc(peer, best.value)
    ensures NewestLoc(peer, best, thread).Some? ==> PeerLoc(peer, NewestLoc(peer, best, thread).value)
    decreases |thread|
  {
    if thread != [] {
      var e := thread[0];
      NewestLocSealed(peer, if PeerLoc(peer, e) && (best.None? || e.ts > best.value.ts) then Some(e) else best, thread[1..]);
    }
  }

  function Locate(c: Crypto, peer: string, watching: bool, r: Reader, thread: seq<Envelope>): Reader {
    var newest := NewestLoc(peer, None, thread);
    if !watching || r.keys.pub.None? || newest.None? || newest.value.ts <= r.lastLocTs then r
    else
      NewestLocSealed(peer, None, thread);
      var loc := OpenLoc(c, r.keys.pub.value, newest.value);
      r.(lastLocTs := newest.value.ts, locs := if loc.Some? then r.locs + [loc.value] else r.locs)
  }

  function Chats(c: Crypto, peer: string, r: Reader, thread: seq<Envelope>): Read {
    ReadAll(c, peer, Adopt(c, peer, r.keys, thread).pub, Read(r.seen, []), thread)
  }

  function Polled(c: Crypto, peer: string, watching: bool, r: Reader, thread: seq<Envelope>): Reader {
    Locate(c, peer, watching,
           r.(keys := Adopt(c, peer, r.keys, thread), seen := Chats(c, peer, r, thread).seen), thread)
  }

  function Messages(ds: seq<Delivery>): (ms: seq<ChatMsg>)
    ensures |ms| == |ds|
    ensures forall k :: 0 <= k < |ds| ==> ms[k] == ds[k].msg
  {
    if ds == [] then [] else Messages(ds[..|ds| - 1]) + [ds[|ds| - 1].msg]
  }

  datatype SendError = WaitingForPeer

  /** An announcement without a commitment. */
  function PlainHello(from: string, pub: string, ts: int): Envelope {
    Envelope(from, -1, "hello", ts, Some(pub), None, None, None, None)
  }

  /** A chat sealed to the peer's key, under the sender's own sequence number. */
  function ChatOf(c: Crypto, pub: string, from: string, seqNo: int, text: string, ts: int): Envelope {
    Envelope(from, seqNo, "chat", ts, None, Some(c.seal(pub, text).0), Some(c.seal(pub, text).1), None, None)
  }

  /** A location sealed to the peer's key, always under sequence number 0. */
  function LocOf(c: Crypto, pub: string, from: string, text: string, ts: int): Envelope {
    Envelope(from, 0, "loc", ts, None, Some(c.seal(pub, text).0), Some(c.seal(pub, text).1), None, None)
  }

  class OrderThread {
    const crypto: Crypto
    const myAddr: string
    const myPub: string
    const peerAddr: string
    /** Whether a location listener was given. */
    const watching: bool
    var peerPub: Option<string>
    var peerCommit: Option<string>
    var seqNo: nat
    var seen: set<MsgId>
    var lastLocTs: int
    /** The locations the listener was called with. */
    var locs: seq<Loc>

    function View(): Reader
      reads this
    {
      Reader(Keys(peerPub, peerCommit), seen, lastLocTs, locs)
    }

    constructor (crypto: Crypto, myAddr: string, myPub: string, peerAddr: string, watching: bool)
      ensures View() == START && seqNo == 0
      ensures peerPub == None && peerCommit == None && seen == {} && lastLocTs == 0 && locs == []
      ensures this.crypto == crypto && this.myAddr == myAddr && this.myPub == myPub
      ensures this.peerAddr == peerAddr && this.watching == watching
    {
      this.crypto, this.myAddr, this.myPub := crypto, myAddr, myPub;
      this.peerAddr, this.watching := peerAddr, watching;
      peerPub, peerCommit, seqNo, seen, lastLocTs, locs := None, None, 0, {}, 0, [];
    }

    method AdoptPeer(thread: seq<Envelope>)
      modifies this`peerPub, this`peerCommit
      ensures Keys(peerPub, peerCommit) == Adopt(crypto, peerAddr, old(View().keys), thread)
    {
      if peerPub.Some? && peerCommit.Some? {
        return;
      }
      var k := 0;
      while k < |thread|
        invariant k <= |thread|
        invariant Adopt(crypto, peerAddr, Keys(peerPub, peerCommit), thread[k..])
               == Adopt(crypto, peerAddr, old(View().keys), thread)
      {
        var e := thread[k];
        assert thread[k..][1..] == thread[k + 1..];
        if peerPub.Some? && peerCommit.Some? {
          break;
        }
        if e.kind == "hello" && Present(e.pub) && DerivesTo(crypto, e.pub.value, peerAddr) {
          if peerPub.None? {
            peerPub := e.pub;
          }
          if peerCommit.None? && SignedCommit(crypto, peerAddr, e) {
            peerCommit := e.commit;
          }
        }
        k := k + 1;
      }
    }

    method ReadChats(thread: seq<Envelope>) returns (out: seq<ChatMsg>)
      modifies this`seen
      ensures seen == ReadAll(crypto, peerAddr, peerPub, Read(old(seen), []), thread).seen
      ensures out == Messages(ReadAll(crypto, peerAddr, peerPub, Read(old(seen), []), thread).out)
    {
      out := [];
      ghost var ds: seq<Delivery> := [];
      for k := 0 to |thread|
        invariant ReadAll(crypto, peerAddr, peerPub, Read(seen, ds), thread[k..])
               == ReadAll(crypto, peerAddr, peerPub, Read(old(seen), []), thread)
        invariant out == Messages(ds)
      {
        var e := thread[k];
        assert thread[k..][1..] == thread[k + 1..];
        var id := ChatId(e);
        if e.kind != "chat" || id in seen {
          continue;
        }
        if !SameAddress(e.from, peerAddr) {
          seen := seen + {id};
          continue;
        }
        if peerPub.None? || !Sealed(e) {
          continue;
        }
        var text := crypto.open(peerPub.value, e.iv.value, e.ct.value);
        if text.Some? {
          out := out + [ChatMsg(e.from, text.value, e.ts, false)];
          ds := ds + [Delivery(id, ChatMsg(e.from, text.value, e.ts, false))];
          assert ds[..|ds| - 1] + [ds[|ds| - 1]] == ds;
        }
        seen := seen + {id};
      }
    }

    method SurfaceLocation(thread: seq<Envelope>)
      modifies this`lastLocTs, this`locs
      ensures View() == Locate(crypto, peerAddr, watching, old(View()), thread)
    {
      if !watching || peerPub.None? {
        return;
      }
      var newest: Option<Envelope> := None;
      for k := 0 to |thread|
        invariant newest.Some? ==> PeerLoc(peerAddr, newest.value)
        invariant NewestLoc(peerAddr, newest, thread[k..]) == NewestLoc(peerAddr, None, thread)
      {
        var e := thread[k];
        assert thread[k..][1..] == thread[k + 1..];
        if PeerLoc(peerAddr, e) && (newest.None? || e.ts > newest.value.ts) {
          newest := Some(e);
        }
      }
      if newest.Some? && newest.value.ts > lastLocTs {
        lastLocTs := newest.value.ts;
        var loc := OpenLoc(crypto, peerPub.value, newest.value);
        if loc.Some? {
          locs := locs + [loc.value];
        }
      }
    }

    method Poll(thread: seq<Envelope>) returns (out: seq<ChatMsg>)
      modifies this`peerPub, this`peerCommit, this`seen, this`lastLocTs, this`locs
      ensures View() == Polled(crypto, peerAddr, watching, old(View()), thread)
      ensures out == Messages(Chats(crypto, peerAddr, old(View()), thread).out)
    {
      AdoptPeer(thread);
      out := ReadChats(thread);
      SurfaceLocation(thread);
    }

    function Hello(ts: int): Envelope {
      PlainHello(myAddr, myPub, ts)
    }

    /** Announces the key, with a signed commitment if one is given. */
    method Open(commit: Option<string>, ts: int) returns (posted: Envelope)
      ensures posted.Identity() == Hello(ts).Identity() && posted.ts == ts && posted.pub == Some(myPub)
      ensures !Present(commit) ==> posted == Hello(ts)
      ensures Present(commit) ==> posted.commit == commit && posted.commitSig == Some(crypto.sign(commit.value))
    {
      posted := Hello(ts);
      if Present(commit) {
        posted := posted.(commit := commit, commitSig := Some(crypto.sign(commit.value)));
      }
    }

    /** What is posted, and the line shown: before the peer's key is known only a hello goes
        out and the send fails. */
    method Send(text: string, ts: int) returns (posted: Envelope, r: Result<ChatMsg, SendError>)
      modifies this`seqNo
      ensures peerPub.None? ==> posted == Hello(ts) && r == Err(WaitingForPeer) && seqNo == old(seqNo)
      ensures peerPub.Some? ==>
        && posted == ChatOf(crypto, peerPub.value, myAddr, old(seqNo), text, ts)
        && r == Ok(ChatMsg(myAddr, text, ts, true)) && seqNo == old(seqNo) + 1
    {
      if peerPub.None? {
        return Hello(ts), Err(WaitingForPeer);
      }
      var (iv, ct) := crypto.seal(peerPub.value, text);
      posted := Envelope(myAddr, seqNo, "chat", ts, None, Some(iv), Some(ct), None, None);
      seqNo := seqNo + 1;
      r := Ok(ChatMsg(myAddr, text, ts, true));
    }

    /** Locations all go out under sequence number 0, so each replaces the last. */
    method SendLoc(text: string, ts: int) returns (posted: Envelope, sent: bool)
      ensures sent == peerPub.Some?
      ensures !sent ==> posted == Hello(ts)
      ensures sent ==> posted.Identity() == Id(myAddr, 0, "loc")
      ensures sent ==> posted == LocOf(crypto, peerPub.value, myAddr, text, ts)
    {
      if peerPub.None? {
        return Hello(ts), false;
      }
      var (iv, ct) := crypto.seal(peerPub.value, text);
      return Envelope(myAddr, 0, "loc", ts, None, Some(iv), Some(ct), None, None), true;
    }
  }

  // ---- runs of polls ------------------------------------------------------

  ghost function RunReader(c: Crypto, peer: string, watching: bool, threads: seq<seq<Envelope>>): Reader {
    if threads == [] then START
    else Polled(c, peer, watching, RunReader(c, peer, watching, threads[..|threads| - 1]), threads[|threads| - 1])
  }

  /** Everything the polls of a run returned, in order. */
  ghost function RunOut(c: Crypto, peer: string, watching: bool, threads: seq<seq<Envelope>>): seq<Delivery> {
    if threads == [] then []
    else
      var n := |threads| - 1;
      RunOut(c, peer, watching, threads[..n]) + Chats(c, peer, RunReader(c, peer, watching, threads[..n]), threads[n]).out
  }

  // ---- at most once -------------------------------------------------------

  ghost predicate DistinctIds(ds: seq<Delivery>) {
    forall i, j :: 0 <= i < j < |ds| ==> ds[i].id != ds[j].id
  }

  ghost predicate AllSeen(ds: seq<Delivery>, seen: set<MsgId>) {
    forall k :: 0 <= k < |ds| ==> ds[k].id in seen
  }

  ghost predicate NoneSeen(ds: seq<Delivery>, seen: set<MsgId>) {
    forall k :: 0 <= k < |ds| ==> ds[k].id !in seen
  }

  /** Reading opens only unseen ids, each once, and remembers them. */
  lemma {:induction false} ReadOnce(c: Crypto, peer: string, pub: Option<string>, r: Read, thread: seq<Envelope>, was: set<MsgId>)
    requires was <= r.seen && DistinctIds(r.out) && AllSeen(r.out, r.seen) && NoneSeen(r.out, was)
    ensures var r' := ReadAll(c, peer, pub, r, thread);
      r.seen <= r'.seen && DistinctIds(r'.out) && AllSeen(r'.out, r'.seen) && NoneSeen(r'.out, was)
    decreases |thread|
  {
    if thread != [] {
      ReadOnce(c, peer, pub, ReadOne(c, peer, pub, r, thread[0]), thread[1..], was);
    }
  }

  /** Over any run of polls on any threads, no chat id is returned twice. */
  lemma {:induction false} AtMostOnce(c: Crypto, peer: string, watching: bool, threads: seq<seq<Envelope>>)
    ensures DistinctIds(RunOut(c, peer, watching, threads))
    ensures AllSeen(RunOut(c, peer, watching, threads), RunReader(c, peer, watching, threads).seen)
  {
    if threads != [] {
      var n := |threads| - 1;
      AtMostOnce(c, peer, watching, threads[..n]);
      var r := RunReader(c, peer, watching, threads[..n]);
      ReadOnce(c, peer, Adopt(c, peer, r.keys, threads[n]).pub, Read(r.seen, []), threads[n], r.seen);
    }
  }

  // ---- nothing readable is lost -------------------------------------------

  /** A chat of the peer that the poll could open, given a key. */
  predicate PeerChat(peer: string, e: Envelope) {
    e.kind == "chat" && SameAddress(e.from, peer) && Sealed(e)
  }

  ghost predicate NoPeerId(peer: string, seen: set<MsgId>) {
    forall id :: id in seen ==> !SameAddress(id.from, peer)
  }

  lemma {:induction false} WithoutKey(c: Crypto, peer: string, r: Read, thread: seq<Envelope>)
    requires NoPeerId(peer, r.seen)
    ensures NoPeerId(peer, ReadAll(c, peer, None, r, thread).seen)
    decreases |thread|
  {
    if thread != [] {
      WithoutKey(c, peer, ReadOne(c, peer, None, r, thread[0]), thread[1..]);
    }
  }

  lemma {:induction false} AdoptKeeps(c: Crypto, peer: string, k: Keys, thread: seq<Envelope>)
    ensures k.pub.Some? ==> Adopt(c, peer, k, thread).pub == k.pub
    ensures k.commit.Some? ==> Adopt(c, peer, k, thread).commit == k.commit
    decreases |thread|
  {
    if thread != [] && !k.Complete() {
      AdoptKeeps(c, peer, AdoptOne(c, peer, k, thread[0]), thread[1..]);
    }
  }

  /** While the peer's key is unknown, no id of the peer is marked as handled. */
  lemma {:induction false} UnreadKept(c: Crypto, peer: string, watching: bool, threads: seq<seq<Envelope>>)
    requires RunReader(c, peer, watching, threads).keys.pub.None?
    ensures NoPeerId(peer, RunReader(c, peer, watching, threads).seen)
  {
    if threads != [] {
      var n := |threads| - 1;
      var r := RunReader(c, peer, watching, threads[..n]);
      AdoptKeeps(c, peer, r.keys, threads[n]);
      UnreadKept(c, peer, watching, threads[..n]);
      WithoutKey(c, peer, Read(r.seen, []), threads[n]);
    }
  }

  lemma {:induction false} ReadKeepsOut(c: Crypto, peer: string, pub: Option<string>, r: Read, thread: seq<Envelope>)
    ensures r.out <= ReadAll(c, peer, pub, r, thread).out
    decreases |thread|
  {
    if thread != [] {
      ReadKeepsOut(c, peer, pub, ReadOne(c, peer, pub, r, thread[0]), thread[1..]);
    }
  }

  /** The first openable chat of an unseen id in a thread is returned. */
  lemma {:induction false} ReadsFirst(c: Crypto, peer: string, pub: string, r: Read, thread: seq<Envelope>, i: nat)
    requires i < |thread| && PeerChat(peer, thread[i]) && ChatId(thread[i]) !in r.seen
    requires forall j :: 0 <= j < i ==> !(PeerChat(peer, thread[j]) && ChatId(thread[j]) == ChatId(thread[i]))
    requires c.open(pub, thread[i].iv.value, thread[i].ct.value).Some?
    ensures var e := thread[i];
      Delivery(ChatId(e), ChatMsg(e.from, c.open(pub, e.iv.value, e.ct.value).value, e.ts, false))
      in ReadAll(c, peer, Some(pub), r, thread).out
    decreases |thread|
  {
    var r' := ReadOne(c, peer, Some(pub), r, thread[0]);
    if i == 0 {
      ReadKeepsOut(c, peer, Some(pub), r', thread[1..]);
      assert r'.out[|r.out|] in ReadAll(c, peer, Some(pub), r', thread[1..]).out;
    } else {
      assert !(PeerChat(peer, thread[0]) && ChatId(thread[0]) == ChatId(thread[i]));
      ReadsFirst(c, peer, pub, r', thread[1..], i - 1);
    }
  }

  /** A message met before the peer's key is known is not lost: the first poll that has the
      key and still sees it returns it. */
  lemma {:induction false} EarlyMessageReturned(c: Crypto, peer: string, watching: bool, threads: seq<seq<Envelope>>, thread: seq<Envelope>, i: nat)
    requires RunReader(c, peer, watching, threads).keys.pub.None?
    requires Adopt(c, peer, RunReader(c, peer, watching, threads).keys, thread).pub.Some?
    requires i < |thread| && PeerChat(peer, thread[i])
    requires forall j :: 0 <= j < i ==> !(PeerChat(peer, thread[j]) && ChatId(thread[j]) == ChatId(thread[i]))
    ensures var r := RunReader(c, peer, watching, threads);
      var e, pub := thread[i], Adopt(c, peer, r.keys, thread).pub.value;
      c.open(pub, e.iv.value, e.ct.value).Some? ==>
        Delivery(ChatId(e), ChatMsg(e.from, c.open(pub, e.iv.value, e.ct.value).value, e.ts, false))
        in Chats(c, peer, r, thread).out
  {
    var r := RunReader(c, peer, watching, threads);
    var e, pub := thread[i], Adopt(c, peer, r.keys, thread).pub.value;
    UnreadKept(c, peer, watching, threads);
    if c.open(pub, e.iv.value, e.ct.value).Some? {
      ReadsFirst(c, peer, pub, Read(r.seen, []), thread, i);
    }
  }

  /** `ds` are opened, one by one, from the places `at` of the thread, in its order. */
  ghost predicate OpenedAt(c: Crypto, peer: string, pub: Option<string>, thread: seq<Envelope>, at: seq<nat>, ds: seq<Delivery>) {
    && |at| == |ds|
    && (forall i, j :: 0 <= i < j < |at| ==> at[i] < at[j])
    && (forall i :: 0 <= i < |at| ==> at[i] < |thread| && IsOpened(c, peer, pub, thread[at[i]], ds[i]))
  }

  lemma OpenedLater(c: Crypto, peer: string, pub: Option<string>, thread: seq<Envelope>, at: seq<nat>, ds: seq<Delivery>)
    returns (shifted: seq<nat>)
    requires thread != [] && OpenedAt(c, peer, pub, thread[1..], at, ds)
    ensures OpenedAt(c, peer, pub, thread, shifted, ds) && forall i :: 0 <= i < |shifted| ==> shifted[i] > 0
  {
    hide IsOpened;
    shifted := seq(|at|, i requires 0 <= i < |at| => at[i] + 1);
    forall i | 0 <= i < |at| ensures IsOpened(c, peer, pub, thread[shifted[i]], ds[i]) {
      assert thread[shifted[i]] == thread[1..][at[i]];
    }
  }

  lemma OpenedFirst(c: Crypto, peer: string, pub: Option<string>, thread: seq<Envelope>, at: seq<nat>, ds: seq<Delivery>, d: Delivery)
    requires thread != [] && OpenedAt(c, peer, pub, thread, at, ds) && forall i :: 0 <= i < |at| ==> at[i] > 0
    requires IsOpened(c, peer, pub, thread[0], d)
    ensures OpenedAt(c, peer, pub, thread, [0] + at, [d] + ds)
  {
    hide IsOpened;
  }

  lemma ReadsOne(c: Crypto, peer: string, pub: Option<string>, r: Read, e: Envelope) returns (ds: seq<Delivery>)
    ensures ReadOne(c, peer, pub, r, e).out == r.out + ds
    ensures ds == [] || (|ds| == 1 && IsOpened(c, peer, pub, e, ds[0]))
  {
    ds := ReadOne(c, peer, pub, r, e).out[|r.out|..];
  }

  /** What reading returns, in the thread's order: each message is a sealed chat of the peer
      that opens under the key, with its own text and time. */
  lemma {:induction false} ReturnedInOrder(c: Crypto, peer: string, pub: Option<string>, r: Read, thread: seq<Envelope>)
    returns (at: seq<nat>, ds: seq<Delivery>)
    ensures ReadAll(c, peer, pub, r, thread).out == r.out + ds
    ensures OpenedAt(c, peer, pub, thread, at, ds)
    decreases |thread|
  {
    hide IsOpened, ReadOne;
    if thread == [] {
      at, ds := [], [];
    } else {
      var first := ReadsOne(c, peer, pub, r, thread[0]);
      at, ds := ReturnedInOrder(c, peer, pub, ReadOne(c, peer, pub, r, thread[0]), thread[1..]);
      at := OpenedLater(c, peer, pub, thread, at, ds);
      if first != [] {
        OpenedFirst(c, peer, pub, thread, at, ds, first[0]);
        at := [0] + at;
      }
      ds := first + ds;
    }
  }

  ghost predicate IsOpened(c: Crypto, peer: string, pub: Option<string>, e: Envelope, d: Delivery) {
    && e.kind == "chat" && Lower(e.from) == Lower(peer)
    && pub.Some? && e.iv.Some? && e.ct.Some? && e.iv.value != "" && e.ct.value != ""
    && c.open(pub.value, e.iv.value, e.ct.value).Some?
    && d.id == MsgId(e.from, e.seqNo)
    && d.msg == ChatMsg(e.from, c.open(pub.value, e.iv.value, e.ct.value).value, e.ts, false)
  }

  /** Which ids reading marks as handled: those of chats that are not the peer's, and of the
      peer's sealed chats once the key is known, whether they open or not. */
  lemma {:induction false} HandledExactly(c: Crypto, peer: string, pub: Option<string>, r: Read, thread: seq<Envelope>, id: MsgId)
    ensures id in ReadAll(c, peer, pub, r, thread).seen <==>
      id in r.seen || exists e :: e in thread && Handles(peer, pub, e, id)
    decreases |thread|
  {
    if thread != [] {
      assert thread == [thread[0]] + thread[1..];
      HandledExactly(c, peer, pub, ReadOne(c, peer, pub, r, thread[0]), thread[1..], id);
      if Handles(peer, pub, thread[0], id) {
        assert thread[0] in thread;
      }
    }
  }

  ghost predicate Handles(peer: string, pub: Option<string>, e: Envelope, id: MsgId) {
    && e.kind == "chat" && MsgId(e.from, e.seqNo) == id
    && (Lower(e.from) != Lower(peer) ||
        (pub.Some? && e.iv.Some? && e.ct.Some? && e.iv.value != "" && e.ct.value != ""))
  }

  // ---- keys ---------------------------------------------------------------

  /** The key derives to the peer's address; the commitment was signed by that address. */
  ghost predicate Authentic(c: Crypto, peer: string, k: Keys) {
    && (k.pub.Some? ==> DerivesTo(c, k.pub.value, peer))
    && (k.commit.Some? ==> exists sig ::
          c.recover(k.commit.value, sig).Some? && SameAddress(c.recover(k.commit.value, sig).value, peer))
  }

  lemma {:induction false} AdoptAuthentic(c: Crypto, peer: string, k: Keys, thread: seq<Envelope>)
    requires Authentic(c, peer, k)
    ensures Authentic(c, peer, Adopt(c, peer, k, thread))
    decreases |thread|
  {
    if thread != [] && !k.Complete() {
      AdoptAuthentic(c, peer, AdoptOne(c, peer, k, thread[0]), thread[1..]);
    }
  }

  /** Over every run the adopted key and commitment are authentic. */
  lemma {:induction false} KeysAuthentic(c: Crypto, peer: string, watching: bool, threads: seq<seq<Envelope>>)
    ensures Authentic(c, peer, RunReader(c, peer, watching, threads).keys)
  {
    if threads != [] {
      var n := |threads| - 1;
      KeysAuthentic(c, peer, watching, threads[..n]);
      AdoptAuthentic(c, peer, RunReader(c, peer, watching, threads[..n]).keys, threads[n]);
    }
  }

  /** Once set, key and commitment never change. */
  lemma {:induction false} KeysFixed(c: Crypto, peer: string, watching: bool, threads: seq<seq<Envelope>>, n: nat)
    requires n <= |threads|
    ensures var early, late := RunReader(c, peer, watching, threads[..n]).keys, RunReader(c, peer, watching, threads).keys;
      (early.pub.Some? ==> late.pub == early.pub) && (early.commit.Some? ==> late.commit == early.commit)
    decreases |threads|
  {
    if n == |threads| {
      assert threads[..n] == threads;
    } else {
      var m := |threads| - 1;
      assert threads[..m][..n] == threads[..n];
      KeysFixed(c, peer, watching, threads[..m], n);
      AdoptKeeps(c, peer, RunReader(c, peer, watching, threads[..m]).keys, threads[m]);
    }
  }

  /** A key is adopted exactly when some hello in the thread derives to the peer. */
  lemma {:induction false} AdoptsExactly(c: Crypto, peer: string, k: Keys, thread: seq<Envelope>)
    requires k.pub.None?
    ensures Adopt(c, peer, k, thread).pub.Some? <==> exists e :: e in thread && PeerHello(c, peer, e)
    decreases |thread|
  {
    if thread != [] {
      var k' := AdoptOne(c, peer, k, thread[0]);
      assert thread == [thread[0]] + thread[1..];
      if PeerHello(c, peer, thread[0]) {
        AdoptKeeps(c, peer, k', thread[1..]);
        assert thread[0] in thread;
      } else {
        AdoptsExactly(c, peer, k', thread[1..]);
      }
    }
  }

  /** A hello of the peer that carries a commitment signed by it. */
  predicate SignedHello(c: Crypto, peer: string, e: Envelope) {
    PeerHello(c, peer, e) && SignedCommit(c, peer, e)
  }

  /** A commitment is adopted exactly when some hello in the thread carries a signed one,
      whether the key was known before or not. */
  lemma {:induction false} AdoptsCommitExactly(c: Crypto, peer: string, k: Keys, thread: seq<Envelope>)
    requires k.commit.None?
    ensures Adopt(c, peer, k, thread).commit.Some? <==> exists e :: e in thread && SignedHello(c, peer, e)
    decreases |thread|
  {
    if thread != [] {
      var k' := AdoptOne(c, peer, k, thread[0]);
      assert thread == [thread[0]] + thread[1..];
      if SignedHello(c, peer, thread[0]) {
        AdoptKeeps(c, peer, k', thread[1..]);
        assert thread[0] in thread;
      } else {
        AdoptsCommitExactly(c, peer, k', thread[1..]);
      }
    }
  }

  /** What one hello teaches a reader that knows nothing: a key that is not empty and derives
      to the peer, and with it a commitment that is not empty and was signed by the peer. */
  lemma {:induction false} OneHello(c: Crypto, peer: string, e: Envelope)
    ensures var k := Adopt(c, peer, Keys(None, None), [e]);
      && (k.pub.Some? <==> e.kind == "hello" && e.pub.Some? && e.pub.value != ""
                           && c.addressOf(e.pub.value).Some? && Lower(c.addressOf(e.pub.value).value) == Lower(peer))
      && (k.pub.Some? ==> k.pub == e.pub)
      && (k.commit.Some? <==>
            k.pub.Some? && e.commit.Some? && e.commit.value != "" && e.commitSig.Some? && e.commitSig.value != ""
            && c.recover(e.commit.value, e.commitSig.value).Some?
            && Lower(c.recover(e.commit.value, e.commitSig.value).value) == Lower(peer))
      && (k.commit.Some? ==> k.commit == e.commit)
  {
    assert [e][1..] == [];
  }

  /** Of several keys that derive to the peer the first in the thread is adopted. */
  lemma {:induction false} AdoptsFirstKey(c: Crypto, peer: string, k: Keys, thread: seq<Envelope>, i: nat)
    requires k.pub.None? && i < |thread| && PeerHello(c, peer, thread[i])
    requires forall j :: 0 <= j < i ==> !PeerHello(c, peer, thread[j])
    ensures Adopt(c, peer, k, thread).pub == thread[i].pub
    decreases |thread|
  {
    var k' := AdoptOne(c, peer, k, thread[0]);
    if i == 0 {
      AdoptKeeps(c, peer, k', thread[1..]);
    } else {
      assert !PeerHello(c, peer, thread[0]);
      AdoptsFirstKey(c, peer, k', thread[1..], i - 1);
    }
  }

  /** ... and of several signed commitments the first. */
  lemma {:induction false} AdoptsFirstCommit(c: Crypto, peer: string, k: Keys, thread: seq<Envelope>, i: nat)
    requires k.commit.None? && i < |thread| && SignedHello(c, peer, thread[i])
    requires forall j :: 0 <= j < i ==> !SignedHello(c, peer, thread[j])
    ensures Adopt(c, peer, k, thread).commit == thread[i].commit
    decreases |thread|
  {
    var k' := AdoptOne(c, peer, k, thread[0]);
    if i == 0 {
      AdoptKeeps(c, peer, k', thread[1..]);
    } else {
      assert !SignedHello(c, peer, thread[0]);
      AdoptsFirstCommit(c, peer, k', thread[1..], i - 1);
    }
  }

  // ---- locations ----------------------------------------------------------

  ghost predicate Rising(locs: seq<Loc>, last: int) {
    && (forall i, j :: 0 <= i < j < |locs| ==> locs[i].ts < locs[j].ts)
    && (forall i :: 0 <= i < |locs| ==> 0 < locs[i].ts <= last)
    && last >= 0
  }

  /** Over every run the listener is called with strictly increasing timestamps. */
  lemma {:induction false} LocationsRise(c: Crypto, peer: string, watching: bool, threads: seq<seq<Envelope>>)
    ensures Rising(RunReader(c, peer, watching, threads).locs, RunReader(c, peer, watching, threads).lastLocTs)
  {
    if threads != [] {
      LocationsRise(c, peer, watching, threads[..|threads| - 1]);
    }
  }

  lemma {:induction false} NewestIsNewest(peer: string, best: Option<Envelope>, thread: seq<Envelope>)
    ensures best.Some? ==> NewestLoc(peer, best, thread).Some? && best.value.ts <= NewestLoc(peer, best, thread).value.ts
    ensures forall e :: e in thread && PeerLoc(peer, e) ==>
      NewestLoc(peer, best, thread).Some? && e.ts <= NewestLoc(peer, best, thread).value.ts
    ensures NewestLoc(peer, best, thread).Some? ==>
      NewestLoc(peer, best, thread) == best ||
      (NewestLoc(peer, best, thread).value in thread && PeerLoc(peer, NewestLoc(peer, best, thread).value))
    decreases |thread|
  {
    if thread != [] {
      var e := thread[0];
      assert thread == [e] + thread[1..];
      NewestIsNewest(peer, if PeerLoc(peer, e) && (best.None? || e.ts > best.value.ts) then Some(e) else best, thread[1..]);
    }
  }

  /** A sealed location of the peer above the watermark. */
  ghost predicate FreshLoc(peer: string, last: int, e: Envelope) {
    && e.kind == "loc" && Lower(e.from) == Lower(peer) && e.ts > last
    && e.iv.Some? && e.ct.Some? && e.iv.value != "" && e.ct.value != ""
  }

  lemma {:induction false} NewestStays(peer: string, best: Envelope, thread: seq<Envelope>)
    requires forall j :: 0 <= j < |thread| ==> !FreshLoc(peer, best.ts, thread[j])
    ensures NewestLoc(peer, Some(best), thread) == Some(best)
    decreases |thread|
  {
    if thread != [] {
      assert !FreshLoc(peer, best.ts, thread[0]);
      NewestStays(peer, best, thread[1..]);
    }
  }

  ghost predicate Beats(peer: string, best: Option<Envelope>, e: Envelope) {
    PeerLoc(peer, e) && (best.None? || e.ts > best.value.ts)
  }

  /** The location chosen: the newest, the first of equals. */
  lemma {:induction false} NewestIndex(peer: string, best: Option<Envelope>, thread: seq<Envelope>, some: nat) returns (i: nat)
    requires some < |thread| && Beats(peer, best, thread[some])
    ensures i < |thread| && Beats(peer, best, thread[i]) && NewestLoc(peer, best, thread) == Some(thread[i])
    ensures forall j :: 0 <= j < |thread| && PeerLoc(peer, thread[j]) ==>
      thread[j].ts <= thread[i].ts && (j < i ==> thread[j].ts < thread[i].ts)
    decreases |thread|
  {
    var e, rest := thread[0], thread[1..];
    var best' := if Beats(peer, best, e) then Some(e) else best;
    if j: nat :| j < |rest| && Beats(peer, best', rest[j]) {
      var k := NewestIndex(peer, best', rest, j);
      i := k + 1;
      forall j | 0 <= j < |thread| && PeerLoc(peer, thread[j])
        ensures thread[j].ts <= thread[i].ts && (j < i ==> thread[j].ts < thread[i].ts)
      {
        assert j > 0 ==> thread[j] == rest[j - 1];
      }
    } else {
      i := 0;
      assert some > 0 ==> thread[some] == rest[some - 1];
      assert Beats(peer, best, e);
      forall j | 0 <= j < |rest| ensures !FreshLoc(peer, e.ts, rest[j]) {
        assert !Beats(peer, best', rest[j]);
      }
      NewestStays(peer, e, rest);
      forall j | 0 <= j < |thread| && PeerLoc(peer, thread[j]) ensures thread[j].ts <= e.ts {
        assert j > 0 ==> thread[j] == rest[j - 1] && !Beats(peer, best', rest[j - 1]);
      }
    }
  }

  /** Once the key is known, a sealed location of the peer above the watermark moves the
      watermark to the newest such, the first of equals, and the listener is called exactly
      if that one opens and parses: with its two numbers in order and its timestamp. */
  lemma {:induction false} LocationSurfaced(c: Crypto, peer: string, r: Reader, thread: seq<Envelope>, some: nat) returns (i: nat)
    requires Polled(c, peer, true, r, thread).keys.pub.Some?
    requires some < |thread| && FreshLoc(peer, r.lastLocTs, thread[some])
    ensures i < |thread| && FreshLoc(peer, r.lastLocTs, thread[i])
    ensures forall j :: 0 <= j < |thread| && FreshLoc(peer, r.lastLocTs, thread[j]) ==>
      thread[j].ts <= thread[i].ts && (j < i ==> thread[j].ts < thread[i].ts)
    ensures var after := Polled(c, peer, true, r, thread);
      var text := c.open(after.keys.pub.value, thread[i].iv.value, thread[i].ct.value);
      && after.lastLocTs == thread[i].ts
      && (text.Some? && c.parseLoc(text.value).Some? ==>
            after.locs == r.locs + [Loc(c.parseLoc(text.value).value.0, c.parseLoc(text.value).value.1, thread[i].ts)])
      && (text.None? || c.parseLoc(text.value).None? ==> after.locs == r.locs)
  {
    i := NewestIndex(peer, None, thread, some);
    assert thread[some].ts <= thread[i].ts;
  }

  /** In every other case, without a listener, a key or such a location, nothing happens. */
  lemma {:induction false} NoLocationSurfaced(c: Crypto, peer: string, watching: bool, r: Reader, thread: seq<Envelope>)
    requires !watching || Polled(c, peer, watching, r, thread).keys.pub.None? ||
      forall j :: 0 <= j < |thread| ==> !FreshLoc(peer, r.lastLocTs, thread[j])
    ensures Polled(c, peer, watching, r, thread).locs == r.locs
    ensures Polled(c, peer, watching, r, thread).lastLocTs == r.lastLocTs
  {
    NewestIsNewest(peer, None, thread);
    var newest := NewestLoc(peer, None, thread);
    if newest.Some? && newest.value.ts > r.lastLocTs {
      var j :| 0 <= j < |thread| && thread[j] == newest.value;
      assert FreshLoc(peer, r.lastLocTs, thread[j]);
    }
  }

  /** A location sent reaches the listener: if the reader's key opens what was sealed, it is
      above the watermark and no other of the peer's is as new. */
  lemma {:induction false} SentLocationReached(s: Crypto, c: Crypto, peer: string, r: Reader, thread: seq<Envelope>,
                                               pub: string, from: string, text: string, ts: int, place: (int, int))
    requires LocOf(s, pub, from, text, ts) in thread && Lower(from) == Lower(peer) && ts > r.lastLocTs
    requires s.seal(pub, text).0 != "" && s.seal(pub, text).1 != ""
    requires r.keys.pub.Some? && c.open(r.keys.pub.value, s.seal(pub, text).0, s.seal(pub, text).1) == Some(text)
    requires c.parseLoc(text) == Some(place)
    requires forall e :: e in thread && PeerLoc(peer, e) && e != LocOf(s, pub, from, text, ts) ==> e.ts < ts
    ensures Polled(c, peer, true, r, thread).locs == r.locs + [Loc(place.0, place.1, ts)]
  {
    hide Polled, NewestLoc, Adopt;
    var e := LocOf(s, pub, from, text, ts);
    var k :| 0 <= k < |thread| && thread[k] == e;
    PolledKeys(c, peer, true, r, thread);
    AdoptKeeps(c, peer, r.keys, thread);
    var i := LocationSurfaced(c, peer, r, thread, k);
    assert PeerLoc(peer, thread[i]) && thread[i] in thread && e.ts <= thread[i].ts;
    assert thread[i] == e;
  }

  lemma {:induction false} PolledKeys(c: Crypto, peer: string, watching: bool, r: Reader, thread: seq<Envelope>)
    ensures Polled(c, peer, watching, r, thread).keys == Adopt(c, peer, r.keys, thread)
  {
  }

  // ---- through the mailbox ------------------------------------------------

  lemma {:induction false} SinceMembers(thread: seq<Envelope>, since: int)
    requires Distinct(thread)
    ensures Distinct(Since(thread, since))
    ensures forall e :: e in Since(thread, since) <==> e in thread && e.ts > since
  {
    if thread != [] {
      SinceMembers(thread[1..], since);
      assert thread == [thread[0]] + thread[1..];
      forall e | e in Since(thread[1..], since) ensures e.Identity() != thread[0].Identity() {
        var k :| 0 <= k < |thread[1..]| && thread[1..][k] == e;
        assert thread[k + 1] == e;
      }
    }
  }

  /** A held chat with a positive timestamp is returned by the next poll of a reader that
      knows the peer's key and has not handled that id. */
  lemma {:induction false} HeldChatReturned(c: Crypto, peer: string, r: Reader, held: seq<Envelope>, e: Envelope)
    requires Distinct(held) && e in held && e.ts > 0
    requires PeerChat(peer, e) && ChatId(e) !in r.seen
    requires r.keys.pub.Some? && c.open(r.keys.pub.value, e.iv.value, e.ct.value).Some?
    ensures Delivery(ChatId(e), ChatMsg(e.from, c.open(r.keys.pub.value, e.iv.value, e.ct.value).value, e.ts, false))
         in Chats(c, peer, r, Since(held, 0)).out
  {
    hide Since;
    var thread := Since(held, 0);
    SinceMembers(held, 0);
    assert e in thread;
    var i :| 0 <= i < |thread| && thread[i] == e;
    AdoptKeeps(c, peer, r.keys, thread);
    forall j | 0 <= j < i ensures !(PeerChat(peer, thread[j]) && ChatId(thread[j]) == ChatId(e)) {
      assert thread[j].Identity() != thread[i].Identity();
    }
    ReadsFirst(c, peer, r.keys.pub.value, Read(r.seen, []), thread, i);
  }

  /** End to end: a chat that is its identity's latest post is returned by the next poll of a
      reader that knows the peer's key and has not handled that id, if at most 200
      identities were posted, or if reposts never lowered `ts` and at most 200 latest posts,
      its own among them, are as young as it. */
  lemma {:induction false} ChatReachesReader(c: Crypto, peer: string, r: Reader, posts: seq<Envelope>, e: Envelope)
    requires |Latest(posts)| <= THREAD_MAX || (NeverLower(posts) && |YoungAs(Latest(posts), e.ts)| <= THREAD_MAX)
    requires e.Identity() in Latest(posts) && Latest(posts)[e.Identity()] == e && e.ts > 0
    requires PeerChat(peer, e) && ChatId(e) !in r.seen
    requires r.keys.pub.Some? && c.open(r.keys.pub.value, e.iv.value, e.ct.value).Some?
    ensures Delivery(ChatId(e), ChatMsg(e.from, c.open(r.keys.pub.value, e.iv.value, e.ct.value).value, e.ts, false))
         in Chats(c, peer, r, Since(ThreadAfter(posts), 0)).out
  {
    hide ThreadAfter, Latest, Since, Chats, NeverLower, YoungAs;
    RunValid(posts);
    if |Latest(posts)| <= THREAD_MAX {
      NothingLost(posts);
    } else {
      YoungIsHeld(posts, e);
    }
    HeldChatReturned(c, peer, r, ThreadAfter(posts), e);
  }

  /** A chat sent is a chat received: if the reader's key opens what was sealed, `Send` and
      the mailbox's next poll give the text back, under the sender's number and time. */
  lemma {:induction false} SentChatReturned(s: Crypto, c: Crypto, peer: string, r: Reader, posts: seq<Envelope>, pub: string,
                                            from: string, seqNo: int, text: string, ts: int)
    requires |Latest(posts)| <= THREAD_MAX || (NeverLower(posts) && |YoungAs(Latest(posts), ts)| <= THREAD_MAX)
    requires Id(from, seqNo, "chat") in Latest(posts)
    requires Latest(posts)[Id(from, seqNo, "chat")] == ChatOf(s, pub, from, seqNo, text, ts) && ts > 0
    requires Lower(from) == Lower(peer) && MsgId(from, seqNo) !in r.seen
    requires s.seal(pub, text).0 != "" && s.seal(pub, text).1 != ""
    requires r.keys.pub.Some? && c.open(r.keys.pub.value, s.seal(pub, text).0, s.seal(pub, text).1) == Some(text)
    ensures Delivery(MsgId(from, seqNo), ChatMsg(from, text, ts, false)) in Chats(c, peer, r, Since(ThreadAfter(posts), 0)).out
  {
    hide ThreadAfter, Latest, Since, Chats, NeverLower, YoungAs;
    ChatReachesReader(c, peer, r, posts, ChatOf(s, pub, from, seqNo, text, ts));
  }

  // ---- a sender that starts over ------------------------------------------

  /** The chats a new thread object posts once it knows the peer's key: the sequence number
      starts at 0. */
  function Session(c: Crypto, pub: string, from: string, lines: seq<(string, int)>): (posts: seq<Envelope>)
    ensures |posts| == |lines|
  {
    seq(|lines|, k requires 0 <= k < |lines| => ChatOf(c, pub, from, k, lines[k].0, lines[k].1))
  }

  /** After a restart of the sender its k-th chat has the identity of the k-th before, and
      the mailbox keeps at most the new one. */
  lemma {:induction false} RestartReplaces(c: Crypto, pub: string, from: string, first: seq<(string, int)>,
                                           second: seq<(string, int)>, posts: seq<Envelope>, mid: seq<Envelope>,
                                           later: seq<Envelope>, k: nat)
    requires k < |first| && k < |second|
    requires forall e :: e in later ==> e.Identity() != Id(from, k, "chat")
    ensures Session(c, pub, from, first)[k].Identity() == Session(c, pub, from, second)[k].Identity() == Id(from, k, "chat")
    ensures var run := posts + Session(c, pub, from, first) + mid + Session(c, pub, from, second) + later;
      forall e :: e in ThreadAfter(run) && e.Identity() == Id(from, k, "chat") ==> e == Session(c, pub, from, second)[k]
  {
    hide ThreadAfter, Latest;
    var again := Session(c, pub, from, second);
    var before, after := posts + Session(c, pub, from, first) + mid + again[..k], again[k + 1..] + later;
    assert again == again[..k] + [again[k]] + again[k + 1..];
    assert posts + Session(c, pub, from, first) + mid + again + later == before + [again[k]] + after;
    forall e | e in after ensures e.Identity() != again[k].Identity() {
      if e in again[k + 1..] {
        var n :| 0 <= n < |again[k + 1..]| && again[k + 1..][n] == e;
        assert e == again[k + 1 + n];
      }
    }
    LatestIsLast(before, again[k], after);
    HeldIsLatest(before + [again[k]] + after);
  }

  lemma {:induction false} RunStep(c: Crypto, peer: string, watching: bool, threads: seq<seq<Envelope>>)
    requires threads != []
    ensures var m := |threads| - 1;
      RunOut(c, peer, watching, threads)
      == RunOut(c, peer, watching, threads[..m]) + Chats(c, peer, RunReader(c, peer, watching, threads[..m]), threads[m]).out
  {
  }

  lemma {:induction false} RunOutGrows(c: Crypto, peer: string, watching: bool, threads: seq<seq<Envelope>>, n: nat)
    requires n <= |threads|
    ensures RunOut(c, peer, watching, threads[..n]) <= RunOut(c, peer, watching, threads)
    ensures RunReader(c, peer, watching, threads[..n]).seen <= RunReader(c, peer, watching, threads).seen
    decreases |threads|
  {
    if n == |threads| {
      assert threads[..n] == threads;
    } else {
      var m := |threads| - 1;
      assert threads[..m][..n] == threads[..n];
      RunOutGrows(c, peer, watching, threads[..m], n);
      var r := RunReader(c, peer, watching, threads[..m]);
      ReadOnce(c, peer, Adopt(c, peer, r.keys, threads[m]).pub, Read(r.seen, []), threads[m], r.seen);
    }
  }

  ghost predicate NoneFrom(ds: seq<Delivery>, n: nat, id: MsgId) {
    forall i :: n <= i < |ds| ==> ds[i].id != id
  }

  lemma NoneInMore(ds: seq<Delivery>, more: seq<Delivery>, n: nat, id: MsgId)
    requires n <= |ds| && NoneFrom(ds, n, id) && NoneFrom(more, 0, id)
    ensures NoneFrom(ds + more, n, id)
  {
  }

  /** A poll returns no id that was handled before. */
  lemma {:induction false} ChatsUnseen(c: Crypto, peer: string, r: Reader, thread: seq<Envelope>, id: MsgId)
    requires id in r.seen
    ensures NoneFrom(Chats(c, peer, r, thread).out, 0, id)
  {
    ReadOnce(c, peer, Adopt(c, peer, r.keys, thread).pub, Read(r.seen, []), thread, r.seen);
  }

  /** What a reader has handled it never returns again, whatever is posted under that id:
      after a restart of the sender the chats that reuse its numbers are lost on it. */
  lemma {:induction false} HandledNeverReturned(c: Crypto, peer: string, watching: bool, threads: seq<seq<Envelope>>, n: nat, id: MsgId)
    requires n <= |threads| && id in RunReader(c, peer, watching, threads[..n]).seen
    ensures RunOut(c, peer, watching, threads[..n]) <= RunOut(c, peer, watching, threads)
    ensures NoneFrom(RunOut(c, peer, watching, threads), |RunOut(c, peer, watching, threads[..n])|, id)
    decreases |threads|
  {
    RunOutGrows(c, peer, watching, threads, n);
    if n == |threads| {
      assert threads[..n] == threads;
    } else {
      var m := |threads| - 1;
      RunStep(c, peer, watching, threads);
      hide RunOut, RunReader, NoneFrom, Chats;
      assert threads[..m][..n] == threads[..n];
      HandledNeverReturned(c, peer, watching, threads[..m], n, id);
      RunOutGrows(c, peer, watching, threads[..m], n);
      var r := RunReader(c, peer, watching, threads[..m]);
      ChatsUnseen(c, peer, r, threads[m], id);
      NoneInMore(RunOut(c, peer, watching, threads[..m]), Chats(c, peer, r, threads[m]).out,
                 |RunOut(c, peer, watching, threads[..n])|, id);
    }
  }

  // ---- announcements share one identity -----------------------------------

  /** After any run of posts a reader without a commitment adopts one exactly when a signed
      hello of the peer is still in the thread. */
  lemma {:induction false} CommitSeenExactly(c: Crypto, peer: string, k: Keys, posts: seq<Envelope>)
    requires k.commit.None?
    ensures Adopt(c, peer, k, Since(ThreadAfter(posts), 0)).commit.Some?
        <==> exists e :: e in ThreadAfter(posts) && e.ts > 0 && SignedHello(c, peer, e)
  {
    hide Adopt, ThreadAfter, SignedHello;
    RunValid(posts);
    SinceMembers(ThreadAfter(posts), 0);
    AdoptsCommitExactly(c, peer, k, Since(ThreadAfter(posts), 0));
  }

  /** While at most 200 identities were posted: exactly when the latest post of some identity
      is a signed hello of the peer. */
  lemma {:induction false} LatestCommitSeenExactly(c: Crypto, peer: string, k: Keys, posts: seq<Envelope>)
    requires k.commit.None? && |Latest(posts)| <= THREAD_MAX
    ensures Adopt(c, peer, k, Since(ThreadAfter(posts), 0)).commit.Some?
        <==> exists id :: id in Latest(posts) && Latest(posts)[id].ts > 0 && SignedHello(c, peer, Latest(posts)[id])
  {
    hide Adopt, ThreadAfter, Latest, SignedHello;
    CommitSeenExactly(c, peer, k, posts);
    NothingLost(posts);
    LatestIsPosted(posts);
    if id :| id in Latest(posts) && Latest(posts)[id].ts > 0 && SignedHello(c, peer, Latest(posts)[id]) {
      var e := Latest(posts)[id];
      assert e in ThreadAfter(posts);
    }
  }

  /** A later plain hello of the sender replaces its signed one: from then on a reader
      without a commitment adopts one exactly if another identity's signed hello is held. */
  lemma {:induction false} PlainHelloReplaces(c: Crypto, peer: string, k: Keys, posts: seq<Envelope>, from: string, pub: string, ts: int)
    requires k.commit.None?
    ensures Adopt(c, peer, k, Since(ThreadAfter(posts + [PlainHello(from, pub, ts)]), 0)).commit.Some?
        <==> exists e :: e in ThreadAfter(posts + [PlainHello(from, pub, ts)]) && e.ts > 0
                         && SignedHello(c, peer, e) && e.Identity() != Id(from, -1, "hello")
  {
    hide Adopt, ThreadAfter, Post, PeerHello;
    var plain := PlainHello(from, pub, ts);
    var posts' := posts + [plain];
    assert posts'[..|posts|] == posts;
    LastPost(posts');
    RunValid(posts);
    OnlyLastPost(ThreadAfter(posts), plain);
    CommitSeenExactly(c, peer, k, posts');
  }

  lemma OnlyLastPost(thread: seq<Envelope>, msg: Envelope)
    requires ValidThread(thread)
    ensures forall e :: e in Post(thread, msg) && e.Identity() == msg.Identity() ==> e == msg
  {
    PlacedHolds(thread, msg);
  }

  lemma {:induction false} PostUnsigned(c: Crypto, peer: string, thread: seq<Envelope>, msg: Envelope)
    requires ValidThread(thread) && !SignedHello(c, peer, msg)
    requires forall e :: e in thread && SignedHello(c, peer, e) ==> e.Identity() == msg.Identity()
    ensures forall e :: e in Post(thread, msg) ==> !SignedHello(c, peer, e)
  {
    hide SignedHello, Post;
    PostedOrHeld(thread, msg);
  }

  lemma {:induction false} StaysForgotten(c: Crypto, peer: string, posts: seq<Envelope>, plain: Envelope, later: seq<Envelope>)
    requires !SignedHello(c, peer, plain) && forall e :: e in later ==> !SignedHello(c, peer, e)
    requires forall e :: e in posts && SignedHello(c, peer, e) ==> e.Identity() == plain.Identity()
    ensures forall e :: e in ThreadAfter(posts + [plain] + later) ==> !SignedHello(c, peer, e)
    decreases |later|
  {
    hide SignedHello, ThreadAfter, Post;
    if later == [] {
      RunValid(posts);
      PostUnsigned(c, peer, ThreadAfter(posts), plain);
      PostedLast(posts, plain);
      assert posts + [plain] + later == posts + [plain];
    } else {
      var init, last := later[..|later| - 1], later[|later| - 1];
      assert last in later && forall e :: e in init ==> e in later;
      StaysForgotten(c, peer, posts, plain, init);
      RunValid(posts + [plain] + init);
      PostUnsigned(c, peer, ThreadAfter(posts + [plain] + init), last);
      PostedLast(posts + [plain] + init, last);
      assert posts + [plain] + later == posts + [plain] + init + [last];
    }
  }

  /** The peer opens with a commitment and then, before it knows the reader's key, tries to
      send.  A reader that polls in between adopts the commitment; one that first polls
      later never does, until the peer signs anew: its own plain hello took the place of
      the signed one. */
  lemma {:induction false} SendForgetsCommitment(c: Crypto, peer: string, k: Keys, posts: seq<Envelope>, signed: Envelope,
                              pub: string, ts: int, later: seq<Envelope>)
    requires k.commit.None? && SignedHello(c, peer, signed) && signed.ts > 0
    requires signed.Identity() == Id(signed.from, -1, "hello")
    requires |Latest(posts + [signed])| <= THREAD_MAX
    requires forall e :: e in posts && SignedHello(c, peer, e) ==> e.Identity() == signed.Identity()
    requires forall e :: e in later ==> !SignedHello(c, peer, e)
    ensures Adopt(c, peer, k, Since(ThreadAfter(posts + [signed]), 0)).commit.Some?
    ensures Adopt(c, peer, k, Since(ThreadAfter(posts + [signed] + [PlainHello(signed.from, pub, ts)] + later), 0)).commit.None?
  {
    hide Adopt, SignedHello, ThreadAfter, Latest;
    var plain := PlainHello(signed.from, pub, ts);
    var signedRun := posts + [signed];
    assert signedRun[..|posts|] == posts;
    LastPost(signedRun);
    LatestCommitSeenExactly(c, peer, k, signedRun);
    assert signed.Identity() in Latest(signedRun) && Latest(signedRun)[signed.Identity()] == signed;
    PlainUnsigned(c, peer, plain);
    StaysForgotten(c, peer, signedRun, plain, later);
    CommitSeenExactly(c, peer, k, signedRun + [plain] + later);
  }

  lemma PlainUnsigned(c: Crypto, peer: string, e: Envelope)
    requires e.commit.None?
    ensures !SignedHello(c, peer, e)
  {
  }
}
