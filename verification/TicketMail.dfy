/** Tickets on their way through the order mailbox (web/src/channel.ts, `postTicket` and
    `fetchTickets`): posted without a sender, under a number derived from their content.  */
module TicketMail {
  import opened Wrappers
  import opened Mailbox
  import opened OrderChannel
  import opened Menus
  import T = Tickets

  /** Thirty-two-bit hash of a ciphertext: `imul` by 31 and `| 0` wrap, `>>> 0` makes the
      result unsigned. */
  function TicketSeq(ct: string): (h: nat)
    ensures h < 0x1_0000_0000
  {
    if ct == "" then 0
    else (31 * TicketSeq(ct[..|ct| - 1]) + ct[|ct| - 1] as int) % 0x1_0000_0000
  }

  function TicketId(ct: string): Id {
    Id("", TicketSeq(ct), "ticket")
  }

  /** What `postTicket` posts. */
  function TicketPost(s: T.SealedTicket, ts: int): Envelope {
    Envelope("", TicketSeq(s.ct), "ticket", ts, Some(s.epk), Some(s.iv), Some(s.ct), None, None)
  }

  predicate IsTicket(e: Envelope) {
    e.kind == "ticket" && Present(e.pub) && Present(e.iv) && Present(e.ct)
  }

  predicate Carries(e: Envelope, s: T.SealedTicket) {
    && e.kind == "ticket" && s.epk != "" && s.iv != "" && s.ct != ""
    && e.pub == Some(s.epk) && e.iv == Some(s.iv) && e.ct == Some(s.ct)
  }

  function FetchTickets(thread: seq<Envelope>): seq<T.SealedTicket> {
    if thread == [] then []
    else
      var e := thread[0];
      (if IsTicket(e) then [T.SealedTicket(e.pub.value, e.iv.value, e.ct.value)] else []) + FetchTickets(thread[1..])
  }

  lemma {:induction false} FetchedExactly(thread: seq<Envelope>, s: T.SealedTicket)
    ensures s in FetchTickets(thread) <==> exists e :: e in thread && Carries(e, s)
  {
    if thread != [] {
      FetchedExactly(thread[1..], s);
      assert thread == [thread[0]] + thread[1..];
      assert Carries(thread[0], s) ==> thread[0] in thread;
    }
  }

  lemma {:induction false} FetchFirst(e: Envelope, rest: seq<Envelope>)
    ensures FetchTickets([e] + rest) == FetchTickets([e]) + FetchTickets(rest)
  {
    assert ([e] + rest)[1..] == rest && [e][1..] == [];
  }

  /** Tickets are fetched in the thread's order. */
  lemma {:induction false} FetchedInOrder(a: seq<Envelope>, b: seq<Envelope>)
    ensures FetchTickets(a + b) == FetchTickets(a) + FetchTickets(b)
  {
    if a == [] {
      assert a + b == b;
    } else {
      hide FetchTickets;
      var rest := a[1..];
      assert a == [a[0]] + rest && a + b == [a[0]] + (rest + b);
      FetchFirst(a[0], rest);
      FetchFirst(a[0], rest + b);
      FetchedInOrder(rest, b);
    }
  }

  /** While at most 200 identities were posted, a ticket is fetched exactly when the latest
      post of some identity carries it. */
  lemma {:induction false} TicketFetchedExactly(posts: seq<Envelope>, s: T.SealedTicket)
    requires |Latest(posts)| <= THREAD_MAX
    ensures s in FetchTickets(Since(ThreadAfter(posts), 0))
        <==> exists id :: id in Latest(posts) && Latest(posts)[id].ts > 0 && Carries(Latest(posts)[id], s)
  {
    hide ThreadAfter, Latest, Since, FetchTickets, Carries;
    NothingLost(posts);
    RunValid(posts);
    LatestIsPosted(posts);
    SinceMembers(ThreadAfter(posts), 0);
    FetchedExactly(Since(ThreadAfter(posts), 0), s);
    if id :| id in Latest(posts) && Latest(posts)[id].ts > 0 && Carries(Latest(posts)[id], s) {
      var e := Latest(posts)[id];
      assert e in Since(ThreadAfter(posts), 0);
    }
  }

  /** A ticket that nobody else posts is fetched exactly when no later post, whoever made it,
      has its identity. */
  lemma {:induction false} TicketKeptExactly(before: seq<Envelope>, s: T.SealedTicket, ts: int, later: seq<Envelope>)
    requires s.epk != "" && s.iv != "" && s.ct != "" && ts > 0
    requires |Latest(before + [TicketPost(s, ts)] + later)| <= THREAD_MAX
    requires forall e :: e in before + later ==> !Carries(e, s)
    ensures s in FetchTickets(Since(ThreadAfter(before + [TicketPost(s, ts)] + later), 0))
        <==> forall e :: e in later ==> e.Identity() != TicketId(s.ct)
  {
    hide ThreadAfter, Latest, Since, FetchTickets;
    var t := TicketPost(s, ts);
    var posts := before + [t] + later;
    TicketFetchedExactly(posts, s);
    LatestIsPosted(posts);
    if forall e :: e in later ==> e.Identity() != TicketId(s.ct) {
      LatestIsLast(before, t, later);
    } else {
      var e :| e in later && e.Identity() == TicketId(s.ct);
      Superseded(before + [t], later, e);
      forall id | id in Latest(posts) ensures !Carries(Latest(posts)[id], s) {
        var x := Latest(posts)[id];
        assert x in posts && (x == t ==> id == TicketId(s.ct));
        assert x in before + later || x == t;
      }
    }
  }

  /** Once an identity was posted again, its latest post is one of the later ones. */
  lemma {:induction false} Superseded(before: seq<Envelope>, later: seq<Envelope>, e: Envelope)
    requires e in later
    ensures e.Identity() in Latest(before + later) && Latest(before + later)[e.Identity()] in later
    decreases |later|
  {
    hide Latest;
    var m := |later| - 1;
    var init, last := later[..m], later[m];
    assert later == init + [last];
    assert before + later == (before + init) + [last];
    PostedLast(before + init, last);
    if last.Identity() != e.Identity() {
      assert e in init;
      Superseded(before, init, e);
    }
  }

  lemma {:induction false} SeqPush(init: string, c: char)
    ensures TicketSeq(init + [c]) == (31 * TicketSeq(init) + c as int) % 0x1_0000_0000
  {
    assert (init + [c])[..|init|] == init;
  }

  lemma {:induction false} SeqChar(init: string, c: char, s: string, h: nat)
    requires TicketSeq(init) == h && s == init + [c]
    ensures TicketSeq(s) == (31 * h + c as int) % 0x1_0000_0000
  {
    SeqPush(init, c);
  }

  lemma EmptySeq()
    ensures TicketSeq("") == 0
  {
  }

  const ONE: string := "0x933e73fb"

  const OTHER: string := "0xb8f65f7d"

  lemma OneSeq()
    ensures TicketSeq(ONE) == 1435124748
  {
    hide TicketSeq;
    EmptySeq();
    SeqChar("", '0', "0", 0);
    SeqChar("0", 'x', "0x", 48);
    SeqChar("0x", '9', "0x9", 1608);
    SeqChar("0x9", '3', "0x93", 49905);
    SeqChar("0x93", '3', "0x933", 1547106);
    SeqChar("0x933", 'e', "0x933e", 47960337);
    SeqChar("0x933e", '7', "0x933e7", 1486770548);
    SeqChar("0x933e7", '3', "0x933e73", 3140214083);
    SeqChar("0x933e73", 'f', "0x933e73f", 2857356112);
    SeqChar("0x933e73f", 'b', "0x933e73fb", 2678693654);
  }

  lemma OtherSeq()
    ensures TicketSeq(OTHER) == 1435124748
  {
    hide TicketSeq;
    EmptySeq();
    SeqChar("", '0', "0", 0);
    SeqChar("0", 'x', "0x", 48);
    SeqChar("0x", 'b', "0xb", 1608);
    SeqChar("0xb", '8', "0xb8", 49946);
    SeqChar("0xb8", 'f', "0xb8f", 1548382);
    SeqChar("0xb8f", '6', "0xb8f6", 47999944);
    SeqChar("0xb8f6", '5', "0xb8f65", 1487998318);
    SeqChar("0xb8f65", 'f', "0xb8f65f", 3178274951);
    SeqChar("0xb8f65f", '7', "0xb8f65f7", 4037243071);
    SeqChar("0xb8f65f7", 'd', "0xb8f65f7d", 600483672);
  }

  /** Different hexadecimal texts share a number, and with it the identity of their tickets. */
  lemma {:induction false} NumbersCollide(rest: string)
    ensures TicketSeq(ONE + rest) == TicketSeq(OTHER + rest) && ONE + rest != OTHER + rest
  {
    hide TicketSeq;
    if rest == "" {
      OneSeq();
      OtherSeq();
      assert ONE + rest == ONE && OTHER + rest == OTHER;
    } else {
      var init, c := rest[..|rest| - 1], rest[|rest| - 1];
      NumbersCollide(init);
      SeqPush(ONE + init, c);
      SeqPush(OTHER + init, c);
      assert ONE + rest == (ONE + init) + [c] && OTHER + rest == (OTHER + init) + [c];
    }
    assert (ONE + rest)[2] == '9' && (OTHER + rest)[2] == 'b';
  }

  /** A second ticket erases the first when the two texts share a number. */
  lemma {:induction false} SecondErasesFirst(a: T.SealedTicket, b: T.SealedTicket, ts: int, ts': int)
    requires a.epk != "" && a.iv != "" && a.ct != "" && ts > 0
    requires TicketSeq(a.ct) == TicketSeq(b.ct) && a != b
    ensures a !in FetchTickets(Since(ThreadAfter([TicketPost(a, ts), TicketPost(b, ts')]), 0))
  {
    hide ThreadAfter, Latest, Since, FetchTickets;
    var t, u := TicketPost(a, ts), TicketPost(b, ts');
    TwoLatest(t, u);
    assert [] + [t] + [u] == [t, u] && [] + [u] == [u];
    TicketKeptExactly([], a, ts, [u]);
  }

  lemma LatestOfOne(e: Envelope)
    ensures Latest([e]) == map[e.Identity() := e]
  {
    assert [e][..0] == [];
  }

  lemma TwoLatest(t: Envelope, u: Envelope)
    requires t.Identity() == u.Identity()
    ensures Latest([t, u]) == map[t.Identity() := u]
  {
    hide Latest;
    LatestOfOne(t);
    PostedLast([t], u);
    assert [t] + [u] == [t, u];
  }

  /** End to end: the ticket of the escrowed cart, posted and not posted over, reaches the
      venue as a bound ticket of the escrowed total, if no ticket in the mailbox throws. */
  lemma {:induction false} HonestTicketReaches(v: T.Venue, menu: Option<seq<Item>>, cart: Cart, s: T.SealedTicket, ts: int,
                                               before: seq<Envelope>, later: seq<Envelope>)
    requires s.epk != "" && s.iv != "" && s.ct != "" && ts > 0 && T.Honest(v, menu, cart, s)
    requires |Latest(before + [TicketPost(s, ts)] + later)| <= THREAD_MAX
    requires forall e :: e in later ==> e.Identity() != TicketId(s.ct)
    requires forall u :: u in FetchTickets(Since(ThreadAfter(before + [TicketPost(s, ts)] + later), 0)) ==>
      !v.Fatal(u) && v.PlacedAt(u).At?
    ensures var r := T.Choose(v, None, FetchTickets(Since(ThreadAfter(before + [TicketPost(s, ts)] + later), 0)));
      r.Ok? && r.value.Some? && r.value.value.verdict == T.Bound && r.value.value.totalWei == v.escrow
  {
    hide ThreadAfter, Latest, Since, FetchTickets, T.Choose, T.Honest;
    var t := TicketPost(s, ts);
    var posts := before + [t] + later;
    LatestIsLast(before, t, later);
    assert Carries(Latest(posts)[t.Identity()], s);
    TicketFetchedExactly(posts, s);
    var box := FetchTickets(Since(ThreadAfter(posts), 0));
    var i :| 0 <= i < |box| && box[i] == s;
    forall j | 0 <= j < |box| ensures !v.Fatal(box[j]) && v.PlacedAt(box[j]).At? {
      var u := box[j];
      assert u in box;
    }
    T.HonestTicketAccepted(v, menu, cart, box, i);
  }
}
