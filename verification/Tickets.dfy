/** Order tickets (web/src/ticket.ts): the venue re-prices the lines it was sent and keeps
    the ticket that matches the escrow.  */
module Tickets {
  import opened Wrappers
  import opened Menus

  datatype TicketLine = TicketLine(name: string, price: string, qty: real, choices: Option<seq<Extra>>)

  /** When a ticket says it was placed, an absent time reading as 0; or a value that throws
      when it is compared. */
  datatype Stamp = At(ms: int) | Incomparable

  /** What a decrypted payload parses to.  `orderId` is its text, None where taking the text
      throws; `lines` is None unless it is an array. */
  datatype OrderTicket = OrderTicket(orderId: Option<string>, lines: Option<seq<TicketLine>>, placedAt: Stamp)

  /** A payload that cannot be decrypted and parsed, the JSON text `null`, or a ticket. */
  datatype Payload = Unreadable | Null | Parsed(ticket: OrderTicket)

  datatype Verdict = Bound | Unpriced | Mismatch

  datatype Received = Received(ticket: OrderTicket, verdict: Verdict, totalWei: int)

  /** One ticket off the mailbox; what it opens to is decided by `opener`. */
  datatype SealedTicket = SealedTicket(epk: string, iv: string, ct: string)

  type Opener = SealedTicket -> Payload

  // ---- pricing ------------------------------------------------------------

  function DeltasWei(p: Parser, choices: seq<Extra>): Option<int> {
    if choices == [] then Some(0)
    else
      var first, rest := p(OrZeroText(choices[0].priceDelta)), DeltasWei(p, choices[1..]);
      if first.None? || rest.None? then None else Some(first.value + rest.value)
  }

  function LinePrice(p: Parser, l: TicketLine): Option<int> {
    var base, deltas := p(OrZeroText(l.price)), DeltasWei(p, if l.choices.None? then [] else l.choices.value);
    if base.None? || deltas.None? then None
    else Some((base.value + deltas.value) * Whole(l.qty))
  }

  function LinesTotal(p: Parser, lines: seq<TicketLine>): int {
    if lines == [] then 0
    else
      var w := LinePrice(p, lines[0]);
      (if w.None? then 0 else w.value) + LinesTotal(p, lines[1..])
  }

  /** None stands for the exception on a price that does not parse. */
  method LineWei(p: Parser, l: TicketLine) returns (r: Option<int>)
    ensures r == LinePrice(p, l)
  {
    var base := p(OrZeroText(l.price));
    if base.None? {
      return None;
    }
    var unit := base.value;
    var choices := if l.choices.None? then [] else l.choices.value;
    for k := 0 to |choices|
      invariant DeltasWei(p, choices).None? <==> DeltasWei(p, choices[k..]).None?
      invariant DeltasWei(p, choices).Some? ==> unit + DeltasWei(p, choices[k..]).value == base.value + DeltasWei(p, choices).value
    {
      assert choices[k..][1..] == choices[k + 1..];
      var d := p(OrZeroText(choices[k].priceDelta));
      if d.None? {
        return None;
      }
      unit := unit + d.value;
    }
    return Some(unit * Whole(l.qty));
  }

  method TicketTotalWei(p: Parser, lines: seq<TicketLine>) returns (total: int)
    ensures total == LinesTotal(p, lines)
  {
    total := 0;
    for k := 0 to |lines|
      invariant total + LinesTotal(p, lines[k..]) == LinesTotal(p, lines)
    {
      assert lines[k..][1..] == lines[k + 1..];
      var w := LineWei(p, lines[k]);
      if w.Some? {
        total := total + w.value;
      }
    }
  }

  function VerifyTicketTotal(total: int, orderValue: int): Verdict {
    if orderValue == 0 then Unpriced
    else if total == orderValue then Bound else Mismatch
  }

  /** A line without options costs what it costs with none picked. */
  lemma NoOptions(p: Parser, name: string, price: string, qty: real)
    ensures LinePrice(p, TicketLine(name, price, qty, None)) == LinePrice(p, TicketLine(name, price, qty, Some([])))
  {
  }

  // ---- the two pricers agree ----------------------------------------------

  /** The ticket line a resolved cart line becomes. */
  function ToTicketLine(l: ResolvedLine): TicketLine {
    TicketLine(l.name, l.price, l.qty, Some(l.choices))
  }

  function ToTicketLines(lines: seq<ResolvedLine>): (r: seq<TicketLine>)
    ensures |r| == |lines|
    ensures forall k :: 0 <= k < |lines| ==>
      r[k].name == lines[k].name && r[k].price == lines[k].price && r[k].qty == lines[k].qty && r[k].choices == Some(lines[k].choices)
  {
    if lines == [] then [] else [ToTicketLine(lines[0])] + ToTicketLines(lines[1..])
  }

  lemma {:induction false} DeltasAppend(p: Parser, choices: seq<Extra>, x: Extra)
    ensures DeltasWei(p, choices + [x]) ==
      (var a, b := DeltasWei(p, choices), p(OrZeroText(x.priceDelta));
       if a.None? || b.None? then None else Some(a.value + b.value))
  {
    if choices == [] {
      assert choices + [x] == [x] && [x][1..] == [];
    } else {
      assert (choices + [x])[1..] == choices[1..] + [x];
      DeltasAppend(p, choices[1..], x);
    }
  }

  lemma {:induction false} DeltasAreExtras(p: Parser, choices: seq<Extra>)
    ensures DeltasWei(p, choices) == ExtrasWei(p, choices)
    decreases |choices|
  {
    if choices != [] {
      var n := |choices| - 1;
      DeltasAreExtras(p, choices[..n]);
      DeltasAppend(p, choices[..n], choices[n]);
      assert choices == choices[..n] + [choices[n]];
    }
  }

  lemma SameLinePrice(p: Parser, l: ResolvedLine)
    ensures (if LinePrice(p, ToTicketLine(l)).None? then 0 else LinePrice(p, ToTicketLine(l)).value) == ResolvedWorth(p, l)
  {
    DeltasAreExtras(p, l.choices);
  }

  /** The venue's total of the lines a cart resolves to is the cart's own total. */
  lemma {:induction false} TotalsAgree(p: Parser, lines: seq<ResolvedLine>)
    ensures LinesTotal(p, ToTicketLines(lines)) == ResolvedTotal(p, lines)
  {
    if lines != [] {
      TotalsAgree(p, lines[1..]);
      SameLinePrice(p, lines[0]);
      assert [lines[0]] + lines[1..] == lines && [lines[0]][..0] == [];
      ResolvedConcat(p, [lines[0]], lines[1..]);
      assert ResolvedTotal(p, [lines[0]]) == ResolvedWorth(p, lines[0]);
    }
  }

  // ---- choosing among the mailbox's tickets -------------------------------

  datatype Thrown = TypeError

  /** The venue's side of one order: how prices parse, what its key opens, the order, and
      the order value in escrow. */
  datatype Venue = Venue(parse: Parser, open: Opener, orderId: string, escrow: int)
  {
    /** Makes the loop throw wherever it is met. */
    predicate Fatal(s: SealedTicket) {
      open(s).Null? || (open(s).Parsed? && open(s).ticket.lines.Some? && open(s).ticket.orderId.None?)
    }

    /** Opens, has lines, and names this order. */
    predicate Readable(s: SealedTicket) {
      open(s).Parsed? && open(s).ticket.lines.Some? && open(s).ticket.orderId == Some(orderId)
    }

    function Receive(s: SealedTicket): Received
      requires Readable(s)
    {
      var total := LinesTotal(parse, open(s).ticket.lines.value);
      Received(open(s).ticket, VerifyTicketTotal(total, escrow), total)
    }

    predicate BoundAt(s: SealedTicket) {
      Readable(s) && Receive(s).verdict == Bound
    }

    /** Readable but not bound: kept only if none later supersedes it. */
    predicate Weighed(s: SealedTicket) {
      Readable(s) && !BoundAt(s)
    }

    function PlacedAt(s: SealedTicket): Stamp {
      if open(s).Parsed? then open(s).ticket.placedAt else At(0)
    }
  }

  predicate Clash(a: Stamp, b: Stamp) {
    a.Incomparable? || b.Incomparable?
  }

  function Keep(best: Option<Received>, r: Received): Option<Received>
    requires best.Some? ==> !Clash(r.ticket.placedAt, best.value.ticket.placedAt)
  {
    if best.None? || r.ticket.placedAt.ms >= best.value.ticket.placedAt.ms then Some(r) else best
  }

  function Choose(v: Venue, best: Option<Received>, box: seq<SealedTicket>): Result<Option<Received>, Thrown>
    decreases |box|
  {
    if box == [] then Ok(best)
    else if v.Fatal(box[0]) then Err(TypeError)
    else if !v.Readable(box[0]) then Choose(v, best, box[1..])
    else
      var r := v.Receive(box[0]);
      if r.verdict == Bound then Ok(Some(r))
      else if best.Some? && Clash(r.ticket.placedAt, best.value.ticket.placedAt) then Err(TypeError)
      else Choose(v, Keep(best, r), box[1..])
  }

  method FetchTicket(v: Venue, box: seq<SealedTicket>) returns (r: Result<Option<Received>, Thrown>)
    ensures r == Choose(v, None, box)
  {
    var best: Option<Received> := None;
    for k := 0 to |box|
      invariant Choose(v, best, box[k..]) == Choose(v, None, box)
    {
      assert box[k..][1..] == box[k + 1..];
      var payload := v.open(box[k]);
      if payload.Unreadable? {
        continue;
      }
      if payload.Null? {
        return Err(TypeError);
      }
      var ticket := payload.ticket;
      if ticket.lines.None? {
        continue;
      }
      if ticket.orderId.None? {
        return Err(TypeError);
      }
      if ticket.orderId.value != v.orderId {
        continue;
      }
      var total := TicketTotalWei(v.parse, ticket.lines.value);
      var received := Received(ticket, VerifyTicketTotal(total, v.escrow), total);
      if received.verdict == Bound {
        return Ok(Some(received));
      }
      if best.None? {
        best := Some(received);
      } else if Clash(ticket.placedAt, best.value.ticket.placedAt) {
        return Err(TypeError);
      } else if ticket.placedAt.ms >= best.value.ticket.placedAt.ms {
        best := Some(received);
      }
    }
    return Ok(best);
  }

  // ---- what the loop ends with, without the loop --------------------------

  /** The loop throws at `j` if it gets there: a fatal payload, or a time that does not
      compare with that of a ticket weighed before, `best` standing for the earlier ones. */
  ghost predicate StopsAt(v: Venue, best: Option<Received>, box: seq<SealedTicket>, j: nat)
    requires j < |box|
  {
    v.Fatal(box[j]) ||
    (v.Weighed(box[j]) &&
     ((best.Some? && Clash(best.value.ticket.placedAt, v.PlacedAt(box[j]))) ||
      exists k :: 0 <= k < j && v.Weighed(box[k]) && Clash(v.PlacedAt(box[k]), v.PlacedAt(box[j]))))
  }

  /** Nothing throws before `n`. */
  ghost predicate Clear(v: Venue, best: Option<Received>, box: seq<SealedTicket>, n: nat)
    requires n <= |box|
  {
    forall j :: 0 <= j < n ==> !StopsAt(v, best, box, j)
  }

  ghost predicate NoneBound(v: Venue, box: seq<SealedTicket>, n: nat)
    requires n <= |box|
  {
    forall j :: 0 <= j < n ==> !v.BoundAt(box[j])
  }

  ghost predicate FirstBound(v: Venue, box: seq<SealedTicket>, i: nat) {
    i < |box| && v.BoundAt(box[i]) && NoneBound(v, box, i)
  }

  ghost predicate LatestReadable(v: Venue, box: seq<SealedTicket>, i: nat) {
    && i < |box| && v.Readable(box[i])
    && (forall j :: 0 <= j < |box| && j != i && v.Readable(box[j]) ==>
          && !Clash(v.PlacedAt(box[i]), v.PlacedAt(box[j]))
          && v.PlacedAt(box[j]).ms <= v.PlacedAt(box[i]).ms
          && (j > i ==> v.PlacedAt(box[j]).ms < v.PlacedAt(box[i]).ms))
  }

  lemma StopNotBound(v: Venue, best: Option<Received>, box: seq<SealedTicket>, j: nat)
    requires j < |box| && StopsAt(v, best, box, j)
    ensures !v.BoundAt(box[j])
  {
  }

  /** What is kept once `s` was met without throwing or returning. */
  function Next(v: Venue, best: Option<Received>, s: SealedTicket): Option<Received>
    requires v.Weighed(s) && best.Some? ==> !Clash(best.value.ticket.placedAt, v.PlacedAt(s))
  {
    if v.Weighed(s) then Keep(best, v.Receive(s)) else best
  }

  /** The rest of the box throws where the box does. */
  lemma StopsInRest(v: Venue, best: Option<Received>, box: seq<SealedTicket>, j: nat)
    requires 0 < j < |box| && !StopsAt(v, best, box, 0)
    ensures StopsAt(v, best, box, j) <==> StopsAt(v, Next(v, best, box[0]), box[1..], j - 1)
  {
    var rest := box[1..];
    assert rest[j - 1] == box[j];
    if k :| 0 <= k < j && v.Weighed(box[k]) && Clash(v.PlacedAt(box[k]), v.PlacedAt(box[j])) {
      assert k > 0 ==> rest[k - 1] == box[k];
    }
    if k :| 0 <= k < j - 1 && v.Weighed(rest[k]) && Clash(v.PlacedAt(rest[k]), v.PlacedAt(rest[j - 1])) {
      assert rest[k] == box[k + 1];
    }
  }

  lemma {:induction false} ChooseStep(v: Venue, best: Option<Received>, box: seq<SealedTicket>)
    requires box != []
    ensures StopsAt(v, best, box, 0) ==> Choose(v, best, box).Err? && !v.BoundAt(box[0])
    ensures v.BoundAt(box[0]) ==> Choose(v, best, box) == Ok(Some(v.Receive(box[0])))
    ensures !StopsAt(v, best, box, 0) && !v.BoundAt(box[0]) ==>
      Choose(v, best, box) == Choose(v, Next(v, best, box[0]), box[1..])
  {
  }

  /** How the loop ends, and where: it throws at `i`, returns the bound ticket at `i`, or
      runs to the end past none of either. */
  lemma {:induction false} ChooseMeans(v: Venue, best: Option<Received>, box: seq<SealedTicket>) returns (i: nat)
    requires best.Some? ==> best.value.verdict != Bound
    ensures i <= |box| && Clear(v, best, box, i) && NoneBound(v, box, i)
    ensures match Choose(v, best, box)
      case Err(_) => i < |box| && StopsAt(v, best, box, i) && !v.BoundAt(box[i])
      case Ok(o) =>
        if o.Some? && o.value.verdict == Bound then i < |box| && v.BoundAt(box[i]) && o.value == v.Receive(box[i])
        else i == |box|
    decreases |box|
  {
    if box == [] {
      i := 0;
    } else {
      ChooseStep(v, best, box);
      if StopsAt(v, best, box, 0) || v.BoundAt(box[0]) {
        i := 0;
      } else {
        hide Choose, StopsAt;
        var rest := box[1..];
        var k := ChooseMeans(v, Next(v, best, box[0]), rest);
        i := k + 1;
        forall j | 0 <= j < i ensures !StopsAt(v, best, box, j) && !v.BoundAt(box[j]) {
          if j > 0 {
            StopsInRest(v, best, box, j);
            assert rest[j - 1] == box[j];
          }
        }
        if i < |box| {
          StopsInRest(v, best, box, i);
          assert rest[k] == box[i];
        }
      }
    }
  }

  /** The venue gets a bound ticket exactly when one comes before everything that throws;
      it is the first. */
  lemma {:induction false} BoundExactly(v: Venue, box: seq<SealedTicket>)
    ensures var r := Choose(v, None, box);
      (r.Ok? && r.value.Some? && r.value.value.verdict == Bound)
      <==> exists i: nat :: i < |box| && v.BoundAt(box[i]) && Clear(v, None, box, i)
    ensures forall i: nat :: FirstBound(v, box, i) && Clear(v, None, box, i) ==>
      Choose(v, None, box) == Ok(Some(v.Receive(box[i])))
  {
    hide Choose, StopsAt;
    var f := ChooseMeans(v, None, box);
  }

  /** The call throws exactly when something that throws comes before every bound ticket. */
  lemma {:induction false} ThrowsExactly(v: Venue, box: seq<SealedTicket>)
    ensures Choose(v, None, box).Err? <==>
      exists j: nat :: j < |box| && StopsAt(v, None, box, j) && NoneBound(v, box, j)
  {
    hide Choose, StopsAt;
    var f := ChooseMeans(v, None, box);
    if f < |box| && v.BoundAt(box[f]) {
      forall j: nat | j < |box| && StopsAt(v, None, box, j) ensures !NoneBound(v, box, j) {
        StopNotBound(v, None, box, j);
        assert j > f;
      }
    }
  }

  // ---- honest tickets -----------------------------------------------------

  /** The ticket of the escrowed cart: it opens, names the order, and carries the cart's
      resolved lines, whose total is what was escrowed and is not 0. */
  ghost predicate Honest(v: Venue, menu: Option<seq<Item>>, cart: Cart, s: SealedTicket) {
    && v.Readable(s)
    && v.open(s).ticket.lines.value == ToTicketLines(ResolveCart(menu, cart))
    && v.escrow == ResolvedTotal(v.parse, ResolveCart(menu, cart)) != 0
  }

  /** With an honest ticket in the box the venue gets a bound ticket of the escrowed total
      exactly when some bound ticket, up to the honest one, comes before everything that
      throws; so it does if nothing before the honest ticket throws. */
  lemma {:induction false} HonestTicketAccepted(v: Venue, menu: Option<seq<Item>>, cart: Cart, box: seq<SealedTicket>, i: nat)
    requires i < |box| && Honest(v, menu, cart, box[i])
    ensures var r := Choose(v, None, box);
      && (Clear(v, None, box, i) ==> r.Ok?)
      && (r.Ok? <==> exists k: nat :: k <= i && v.BoundAt(box[k]) && Clear(v, None, box, k))
      && (r.Ok? ==> r.value.Some? && r.value.value.verdict == Bound && r.value.value.totalWei == v.escrow)
  {
    hide Choose, StopsAt;
    TotalsAgree(v.parse, ResolveCart(menu, cart));
    assert v.BoundAt(box[i]);
    var f := ChooseMeans(v, None, box);
    assert f <= i;
  }

  /** A payload that is the text `null`, ahead of the honest ticket, hides it: one dish on
      the menu, one in the cart, and the call throws. */
  lemma NullHidesHonest() returns (v: Venue, menu: Option<seq<Item>>, cart: Cart, box: seq<SealedTicket>)
    ensures |box| == 2 && v.open(box[0]).Null? && Honest(v, menu, cart, box[1])
    ensures Choose(v, None, box).Err? && Choose(v, None, box[1..]).Ok?
  {
    menu, cart := Some([Item("soup", "Soup", "5", [])]), [CartLine("soup", 1.0, [])];
    var bad, good := SealedTicket("a", "", ""), SealedTicket("b", "", "");
    var lines := ToTicketLines(ResolveCart(menu, cart));
    var ticket := OrderTicket(Some("7"), Some(lines), At(0));
    v := Venue(s => if s == "5" then Some(5) else None, s => if s == good then Parsed(ticket) else Null, "7", 5);
    box := [bad, good];
    var l := ResolvedLine("Soup", "5", 1.0, []);
    assert cart[1..] == [] && ResolveCart(menu, []) == [] && ResolveCart(menu, cart) == [l];
    assert [l][..0] == [] && UnitWei(v.parse, l) == Some(5) && ResolvedTotal(v.parse, [l]) == 5;
    assert box[1..] == [good];
    HonestTicketAccepted(v, menu, cart, [good], 0);
  }

  // ---- which ticket is seen -----------------------------------------------

  lemma PrefixQuiet(v: Venue, box: seq<SealedTicket>, n: nat)
    requires n <= |box| && NoneBound(v, box, n) && Clear(v, None, box, n)
    ensures NoneBound(v, box[..n], n) && Clear(v, None, box[..n], n)
  {
    forall j | 0 <= j < n ensures !StopsAt(v, None, box[..n], j) && !v.BoundAt(box[..n][j]) {
      assert !StopsAt(v, None, box, j) && box[..n][j] == box[j];
      forall k | 0 <= k < j && v.Weighed(box[..n][k]) ensures !(v.Weighed(box[j]) && Clash(v.PlacedAt(box[..n][k]), v.PlacedAt(box[j]))) {
        assert box[..n][k] == box[k];
      }
    }
  }

  lemma {:induction false} ChooseAppend(v: Venue, best: Option<Received>, init: seq<SealedTicket>, last: SealedTicket)
    requires NoneBound(v, init, |init|) && Choose(v, best, init).Ok?
    ensures Choose(v, best, init + [last]) == Choose(v, Choose(v, best, init).value, [last])
    decreases |init|
  {
    if init == [] {
      assert init + [last] == [last];
    } else {
      var rest := init[1..];
      assert (init + [last])[0] == init[0] && (init + [last])[1..] == rest + [last];
      assert !v.BoundAt(init[0]);
      forall j | 0 <= j < |rest| ensures !v.BoundAt(rest[j]) {
        assert rest[j] == init[j + 1];
      }
      if v.Readable(init[0]) {
        ChooseAppend(v, Keep(best, v.Receive(init[0])), rest, last);
      } else {
        ChooseAppend(v, best, rest, last);
      }
    }
  }

  /** The latest of a longer box: as before, or the last ticket. */
  lemma NewLatest(v: Venue, box: seq<SealedTicket>, n: nat, k: nat) returns (i: nat)
    requires |box| == n + 1 && k <= n && NoneBound(v, box, n + 1) && !StopsAt(v, None, box, n)
    requires k < n ==> LatestReadable(v, box[..n], k)
    requires k == n ==> forall j :: 0 <= j < n ==> !v.Readable(box[..n][j])
    ensures i <= n + 1 && (i <= n ==> LatestReadable(v, box, i))
    ensures i == n + 1 ==> k == n && forall j :: 0 <= j <= n ==> !v.Readable(box[j])
    ensures v.Readable(box[n]) && (k == n || v.PlacedAt(box[n]).ms >= v.PlacedAt(box[k]).ms) ==> i == n
    ensures k < n && !(v.Readable(box[n]) && v.PlacedAt(box[n]).ms >= v.PlacedAt(box[k]).ms) ==> i == k
  {
    forall j | 0 <= j < n ensures box[..n][j] == box[j] {
    }
    if v.Readable(box[n]) {
      assert v.Weighed(box[n]);
      forall j | 0 <= j < n && v.Readable(box[j]) ensures !Clash(v.PlacedAt(box[j]), v.PlacedAt(box[n])) {
        assert v.Weighed(box[j]);
      }
      i := if k == n || v.PlacedAt(box[n]).ms >= v.PlacedAt(box[k]).ms then n else k;
    } else {
      i := if k == n then n + 1 else k;
    }
  }

  /** Without a bound ticket, and with nothing that throws, the loop ends with the readable
      ticket placed latest, the later of ties; i is |box| when none is readable. */
  lemma {:induction false} LatestKept(v: Venue, box: seq<SealedTicket>) returns (i: nat)
    requires NoneBound(v, box, |box|) && Clear(v, None, box, |box|)
    ensures i <= |box|
    ensures i < |box| ==> LatestReadable(v, box, i)
    ensures i == |box| ==> forall j :: 0 <= j < |box| ==> !v.Readable(box[j])
    ensures Choose(v, None, box) == Ok(if i < |box| then Some(v.Receive(box[i])) else None)
    decreases |box|
  {
    if box == [] {
      i := 0;
    } else {
      var n := |box| - 1;
      var init, last := box[..n], box[n];
      assert box == init + [last];
      PrefixQuiet(v, box, n);
      var k := LatestKept(v, init);
      ChooseAppend(v, None, init, last);
      i := NewLatest(v, box, n, k);
      var best := Choose(v, None, init).value;
      assert k < n ==> init[k] == box[k];
      assert [last][0] == last && [last][1..] == [];
      ChooseStep(v, best, [last]);
      assert !v.BoundAt(box[n]) && !StopsAt(v, None, box, n);
      assert !StopsAt(v, best, [last], 0);
    }
  }

  /** Which ticket the venue sees: the first bound one if it comes before everything that
      throws; else, if something throws, none at all; else the readable one placed latest;
      else none. */
  lemma {:induction false} TicketSeen(v: Venue, box: seq<SealedTicket>)
    ensures var r := Choose(v, None, box);
      if exists i: nat :: i < |box| && v.BoundAt(box[i]) && Clear(v, None, box, i)
      then exists i: nat :: FirstBound(v, box, i) && r == Ok(Some(v.Receive(box[i])))
      else if exists j: nat :: j < |box| && StopsAt(v, None, box, j)
      then r.Err?
      else if exists i: nat :: i < |box| && v.Readable(box[i])
      then exists i: nat :: LatestReadable(v, box, i) && r == Ok(Some(v.Receive(box[i])))
      else r == Ok(None)
  {
    hide Choose, StopsAt;
    var f := ChooseMeans(v, None, box);
    if f == |box| {
      var k := LatestKept(v, box);
    } else if v.BoundAt(box[f]) {
      assert FirstBound(v, box, f);
    } else {
      forall i: nat | i < |box| && v.BoundAt(box[i]) ensures !Clear(v, None, box, i) {
        assert i > f;
      }
    }
  }

  // ---- small boxes ---------------------------------------------------------

  /** A ticket by itself throws exactly if it is `null`, or has lines and an order id without
      a text; else it is seen exactly if it has lines and names the order, with the total of
      its lines and the verdict: unpriced without an escrow, bound if the two are equal. */
  lemma {:induction false} OneTicket(v: Venue, s: SealedTicket)
    ensures var r := Choose(v, None, [s]);
      && (r.Err? <==> v.open(s) == Null || (v.open(s).Parsed? && v.open(s).ticket.lines.Some? && v.open(s).ticket.orderId == None))
      && (r.Ok? && r.value.Some? <==>
            v.open(s).Parsed? && v.open(s).ticket.lines.Some? && v.open(s).ticket.orderId == Some(v.orderId))
      && (r.Ok? && r.value.Some? ==>
            var total := LinesTotal(v.parse, v.open(s).ticket.lines.value);
            && r.value.value.ticket == v.open(s).ticket && r.value.value.totalWei == total
            && (r.value.value.verdict == Unpriced <==> v.escrow == 0)
            && (r.value.value.verdict == Bound <==> v.escrow != 0 && total == v.escrow)
            && (r.value.value.verdict == Mismatch <==> v.escrow != 0 && total != v.escrow))
  {
    assert [s][1..] == [];
  }

  /** Two tickets, neither bound: the call throws exactly if either time does not compare,
      else the later one is seen, the second of equals. */
  lemma {:induction false} TwoTickets(v: Venue, a: SealedTicket, b: SealedTicket)
    requires v.open(a).Parsed? && v.open(a).ticket.lines.Some? && v.open(a).ticket.orderId == Some(v.orderId)
    requires v.open(b).Parsed? && v.open(b).ticket.lines.Some? && v.open(b).ticket.orderId == Some(v.orderId)
    requires v.escrow == 0 || (LinesTotal(v.parse, v.open(a).ticket.lines.value) != v.escrow &&
                               LinesTotal(v.parse, v.open(b).ticket.lines.value) != v.escrow)
    ensures var r := Choose(v, None, [a, b]);
      && (r.Err? <==> v.open(a).ticket.placedAt == Incomparable || v.open(b).ticket.placedAt == Incomparable)
      && (r.Ok? ==>
            var later := if v.open(b).ticket.placedAt.ms >= v.open(a).ticket.placedAt.ms then b else a;
            r.value.Some? && r.value.value.ticket == v.open(later).ticket)
  {
    assert [a, b][1..] == [b] && [b][1..] == [];
    var kept := Some(v.Receive(a));
    assert Choose(v, None, [a, b]) == Choose(v, kept, [b]);
    if !Clash(v.open(a).ticket.placedAt, v.open(b).ticket.placedAt) {
      assert Choose(v, kept, [b]) == Choose(v, Keep(kept, v.Receive(b)), []);
    }
  }

  /** Whatever is seen was opened from the box and names the order. */
  lemma {:induction false} SeenIsForOrder(v: Venue, box: seq<SealedTicket>)
    ensures var r := Choose(v, None, box);
      r.Ok? && r.value.Some? ==>
        && r.value.value.ticket.orderId == Some(v.orderId) && r.value.value.ticket.lines.Some?
        && r.value.value.totalWei == LinesTotal(v.parse, r.value.value.ticket.lines.value)
        && exists s :: s in box && v.open(s) == Parsed(r.value.value.ticket)
  {
    hide Choose, StopsAt;
    TicketSeen(v, box);
    var r := Choose(v, None, box);
    if r.Ok? && r.value.Some? {
      var i: nat :| i < |box| && v.Readable(box[i]) && r.value.value == v.Receive(box[i]);
      assert box[i] in box && v.open(box[i]) == Parsed(r.value.value.ticket);
    }
  }
}
