/** The cart (web/src/menu.ts): a list of configured lines, merged by key and priced
    against the venue's menu.  */
module Menus {
  import opened Wrappers
  import opened Sorting

  datatype Choice = Choice(id: string, name: string, priceDelta: string)

  datatype Item = Item(id: string, name: string, price: string, options: seq<seq<Choice>>)

  datatype CartLine = CartLine(itemId: string, qty: real, choices: seq<string>)

  type Cart = seq<CartLine>

  datatype Extra = Extra(name: string, priceDelta: string)

  datatype ResolvedLine = ResolvedLine(name: string, price: string, qty: real, choices: seq<Extra>)

  /** `parseEther`, as a partial function: None where it throws. */
  type Parser = string -> Option<int>

  // ---- line keys ----------------------------------------------------------

  /** String order by code unit. */
  predicate StrLe(a: string, b: string) {
    if a == "" then true
    else if b == "" then false
    else a[0] < b[0] || (a[0] == b[0] && StrLe(a[1..], b[1..]))
  }

  function Join(parts: seq<string>): string {
    if parts == [] then ""
    else if |parts| == 1 then parts[0]
    else parts[0] + "," + Join(parts[1..])
  }

  function LineKey(itemId: string, choices: seq<string>): string {
    itemId + "|" + Join(SortBy(choices, StrLe))
  }

  /** Index of the line with this key, |cart| when there is none. */
  function FindLine(cart: Cart, itemId: string, choices: seq<string>): (i: nat)
    ensures i <= |cart|
    ensures i < |cart| ==> Key(cart[i]) == LineKey(itemId, choices)
    ensures forall j :: 0 <= j < i ==> Key(cart[j]) != LineKey(itemId, choices)
  {
    if cart == [] || Key(cart[0]) == LineKey(itemId, choices) then 0 else 1 + FindLine(cart[1..], itemId, choices)
  }

  function Key(l: CartLine): string {
    LineKey(l.itemId, l.choices)
  }

  // ---- cart operations ----------------------------------------------------

  function KeepPositive(cart: Cart): Cart {
    if cart == [] then []
    else (if cart[0].qty > 0.0 then [cart[0]] else []) + KeepPositive(cart[1..])
  }

  function AddToCart(cart: Cart, itemId: string, choices: seq<string>, qty: real): Cart {
    var i := FindLine(cart, itemId, choices);
    if i == |cart| then
      if qty > 0.0 then cart + [CartLine(itemId, qty, choices)] else cart
    else KeepPositive(cart[i := cart[i].(qty := cart[i].qty + qty)])
  }

  function SetLineQty(cart: Cart, index: int, qty: real): Cart {
    KeepPositive(if 0 <= index < |cart| then cart[index := cart[index].(qty := qty)] else cart)
  }

  /** Pairwise distinct keys and positive quantities. */
  ghost predicate ValidCart(cart: Cart) {
    && (forall i, j :: 0 <= i < j < |cart| ==> Key(cart[i]) != Key(cart[j]))
    && (forall i :: 0 <= i < |cart| ==> cart[i].qty > 0.0)
  }

  ghost predicate DistinctKeys(cart: Cart) {
    forall i, j :: 0 <= i < j < |cart| ==> Key(cart[i]) != Key(cart[j])
  }

  ghost predicate KeyAbsent(cart: Cart, k: string) {
    forall i :: 0 <= i < |cart| ==> Key(cart[i]) != k
  }

  lemma {:induction false} KeepPositiveValid(cart: Cart)
    requires DistinctKeys(cart)
    ensures ValidCart(KeepPositive(cart))
    ensures forall k :: KeyAbsent(cart, k) ==> KeyAbsent(KeepPositive(cart), k)
  {
    if cart != [] {
      KeepPositiveValid(cart[1..]);
      assert KeyAbsent(cart[1..], Key(cart[0]));
      forall k | KeyAbsent(cart, k) ensures KeyAbsent(KeepPositive(cart), k) {
        assert KeyAbsent(cart[1..], k);
      }
    }
  }

  lemma Requantify(cart: Cart, i: nat, qty: real)
    requires DistinctKeys(cart) && i < |cart|
    ensures DistinctKeys(cart[i := cart[i].(qty := qty)])
  {
    hide LineKey;
    var next := cart[i := cart[i].(qty := qty)];
    forall k | 0 <= k < |cart| ensures Key(next[k]) == Key(cart[k]) {
    }
  }

  /** Both operations keep a cart valid, whatever ids and quantities they are given. */
  lemma CartStaysValid(cart: Cart, itemId: string, choices: seq<string>, index: int, qty: real)
    requires ValidCart(cart)
    ensures ValidCart(AddToCart(cart, itemId, choices, qty))
    ensures ValidCart(SetLineQty(cart, index, qty))
  {
    hide LineKey, KeepPositive, FindLine;
    KeepPositiveValid(cart);
    if 0 <= index < |cart| {
      Requantify(cart, index, qty);
      KeepPositiveValid(cart[index := cart[index].(qty := qty)]);
    }
    var i := FindLine(cart, itemId, choices);
    if i < |cart| {
      Requantify(cart, i, cart[i].qty + qty);
      KeepPositiveValid(cart[i := cart[i].(qty := cart[i].qty + qty)]);
    } else {
      AppendLine(cart, CartLine(itemId, qty, choices));
    }
  }

  lemma AppendLine(cart: Cart, l: CartLine)
    requires DistinctKeys(cart) && KeyAbsent(cart, Key(l))
    ensures DistinctKeys(cart + [l])
  {
  }

  // ---- what the operations do to a list of lines ---------------------------

  lemma {:induction false} KeepAllButOne(cart: Cart, i: nat)
    requires i < |cart| && cart[i].qty <= 0.0
    requires forall j :: 0 <= j < |cart| && j != i ==> cart[j].qty > 0.0
    ensures KeepPositive(cart) == cart[..i] + cart[i + 1..]
  {
    if i == 0 {
      KeepPositiveAll(cart[1..]);
      assert cart[..0] + cart[1..] == cart[1..];
    } else {
      KeepAllButOne(cart[1..], i - 1);
      assert cart[1..][..i - 1] == cart[1..i] && cart[1..][i..] == cart[i + 1..];
      assert cart[..i] == [cart[0]] + cart[1..i];
    }
  }

  /** A line whose quantity is set keeps its place, or is dropped when nothing is left; no
      other line moves or changes. */
  lemma {:induction false} SetExactly(cart: Cart, index: int, qty: real)
    requires ValidCart(cart)
    ensures SetLineQty(cart, index, qty) ==
      if !(0 <= index < |cart|) then cart
      else if qty > 0.0 then cart[..index] + [CartLine(cart[index].itemId, qty, cart[index].choices)] + cart[index + 1..]
      else cart[..index] + cart[index + 1..]
  {
    if 0 <= index < |cart| {
      var next := cart[index := cart[index].(qty := qty)];
      assert next == cart[..index] + [CartLine(cart[index].itemId, qty, cart[index].choices)] + cart[index + 1..];
      if qty > 0.0 {
        KeepPositiveAll(next);
      } else {
        KeepAllButOne(next, index);
        assert next[..index] == cart[..index] && next[index + 1..] == cart[index + 1..];
      }
    } else {
      KeepPositiveAll(cart);
    }
  }

  /** Adding raises the quantity of the one line with that key, in its place, or appends a new
      line at the end; a line with nothing left is dropped, and nothing else changes. */
  lemma {:induction false} AddExactly(cart: Cart, itemId: string, choices: seq<string>, qty: real, i: nat)
    requires ValidCart(cart) && i <= |cart|
    requires i < |cart| ==> LineKey(cart[i].itemId, cart[i].choices) == LineKey(itemId, choices)
    requires i == |cart| ==> forall j :: 0 <= j < |cart| ==> LineKey(cart[j].itemId, cart[j].choices) != LineKey(itemId, choices)
    ensures AddToCart(cart, itemId, choices, qty) ==
      if i < |cart| then
        (var l := cart[i];
         if l.qty + qty > 0.0 then cart[..i] + [CartLine(l.itemId, l.qty + qty, l.choices)] + cart[i + 1..]
         else cart[..i] + cart[i + 1..])
      else if qty > 0.0 then cart + [CartLine(itemId, qty, choices)]
      else cart
  {
    hide LineKey, KeepPositive;
    var f := FindLine(cart, itemId, choices);
    assert f == i by {
      if f < |cart| && i < |cart| {
        assert Key(cart[f]) == Key(cart[i]);
      }
    }
    if i < |cart| {
      SetExactly(cart, i, cart[i].qty + qty);
    }
  }

  // ---- pricing ------------------------------------------------------------

  function FindItem(items: seq<Item>, id: string): Option<Item> {
    if items == [] then None
    else if items[0].id == id then Some(items[0])
    else FindItem(items[1..], id)
  }

  function OrZeroText(s: string): string {
    if s == "" then "0" else s
  }

  function ChosenIn(group: seq<Choice>, chosen: seq<string>): seq<Extra> {
    if group == [] then []
    else (if group[0].id in chosen then [Extra(group[0].name, OrZeroText(group[0].priceDelta))] else [])
         + ChosenIn(group[1..], chosen)
  }

  function Chosen(options: seq<seq<Choice>>, chosen: seq<string>): seq<Extra> {
    if options == [] then [] else ChosenIn(options[0], chosen) + Chosen(options[1..], chosen)
  }

  function ResolveLine(items: seq<Item>, l: CartLine): Option<ResolvedLine> {
    var item := FindItem(items, l.itemId);
    if item.None? then None
    else Some(ResolvedLine(item.value.name, item.value.price, l.qty, Chosen(item.value.options, l.choices)))
  }

  /** None for the menu is a menu that has not loaded. */
  function ResolveCart(menu: Option<seq<Item>>, cart: Cart): seq<ResolvedLine> {
    if menu.None? || cart == [] then []
    else
      var l := ResolveLine(menu.value, cart[0]);
      (if l.Some? then [l.value] else []) + ResolveCart(menu, cart[1..])
  }

  /** `Math.max(0, Math.trunc(qty))`. */
  function Whole(qty: real): int {
    if qty <= 0.0 then 0 else qty.Floor
  }

  function ExtrasWei(p: Parser, choices: seq<Extra>): Option<int> {
    if choices == [] then Some(0)
    else
      var n := |choices| - 1;
      var rest, last := ExtrasWei(p, choices[..n]), p(OrZeroText(choices[n].priceDelta));
      if rest.None? || last.None? then None else Some(rest.value + last.value)
  }

  /** Price of one unit of a resolved line, None if any part of it does not parse. */
  function UnitWei(p: Parser, l: ResolvedLine): Option<int> {
    var base, extras := p(OrZeroText(l.price)), ExtrasWei(p, l.choices);
    if base.None? || extras.None? then None else Some(base.value + extras.value)
  }

  function ResolvedWorth(p: Parser, l: ResolvedLine): int {
    var unit := UnitWei(p, l);
    if unit.None? then 0 else unit.value * Whole(l.qty)
  }

  function ResolvedTotal(p: Parser, lines: seq<ResolvedLine>): int {
    if lines == [] then 0
    else ResolvedTotal(p, lines[..|lines| - 1]) + ResolvedWorth(p, lines[|lines| - 1])
  }

  method ResolvedWei(p: Parser, l: ResolvedLine) returns (r: Option<int>)
    ensures r.None? <==> UnitWei(p, l).None?
    ensures r.Some? ==> r.value == UnitWei(p, l).value * Whole(l.qty)
  {
    var base := p(OrZeroText(l.price));
    if base.None? {
      return None;
    }
    var unit := base.value;
    for k := 0 to |l.choices|
      invariant ExtrasWei(p, l.choices[..k]).Some? && unit == base.value + ExtrasWei(p, l.choices[..k]).value
    {
      assert l.choices[..k + 1][..k] == l.choices[..k];
      var d := p(OrZeroText(l.choices[k].priceDelta));
      if d.None? {
        UnparsedExtra(p, l.choices, k + 1);
        return None;
      }
      unit := unit + d.value;
    }
    assert l.choices[..|l.choices|] == l.choices;
    return Some(unit * Whole(l.qty));
  }

  lemma {:induction false} UnparsedExtra(p: Parser, choices: seq<Extra>, k: nat)
    requires k <= |choices| && ExtrasWei(p, choices[..k]).None?
    ensures ExtrasWei(p, choices).None?
    decreases |choices|
  {
    if k == |choices| {
      assert choices[..k] == choices;
    } else {
      assert choices[..|choices| - 1][..k] == choices[..k];
      UnparsedExtra(p, choices[..|choices| - 1], k);
    }
  }

  method CartTotal(p: Parser, menu: Option<seq<Item>>, cart: Cart) returns (total: int)
    ensures total == ResolvedTotal(p, ResolveCart(menu, cart))
  {
    var lines := ResolveCart(menu, cart);
    total := 0;
    for k := 0 to |lines|
      invariant total == ResolvedTotal(p, lines[..k])
    {
      assert lines[..k + 1][..k] == lines[..k];
      var w := ResolvedWei(p, lines[k]);
      if w.Some? {
        total := total + w.value;
      }
    }
    assert lines[..|lines|] == lines;
  }

  /** The first item of the menu with an id, if any has it. */
  lemma {:induction false} FindItemExactly(items: seq<Item>, id: string) returns (i: nat)
    ensures i <= |items| && (forall j :: 0 <= j < i ==> items[j].id != id)
    ensures i < |items| ==> items[i].id == id && FindItem(items, id) == Some(items[i])
    ensures i == |items| ==> FindItem(items, id) == None
  {
    if items == [] || items[0].id == id {
      i := 0;
    } else {
      var k := FindItemExactly(items[1..], id);
      i := k + 1;
      forall j | 0 <= j < i ensures items[j].id != id {
        assert j > 0 ==> items[j] == items[1..][j - 1];
      }
    }
  }

  /** An option of an item that the line picked. */
  ghost predicate Picked(options: seq<seq<Choice>>, chosen: seq<string>, x: Extra) {
    exists g, k :: 0 <= g < |options| && 0 <= k < |options[g]| && IsExtra(options[g][k], chosen, x)
  }

  ghost predicate IsExtra(c: Choice, chosen: seq<string>, x: Extra) {
    c.id in chosen && x.name == c.name && x.priceDelta == if c.priceDelta == "" then "0" else c.priceDelta
  }

  lemma {:induction false} ChosenInExactly(group: seq<Choice>, chosen: seq<string>, x: Extra)
    ensures x in ChosenIn(group, chosen) <==> exists k :: 0 <= k < |group| && IsExtra(group[k], chosen, x)
  {
    if group != [] {
      ChosenInExactly(group[1..], chosen, x);
      if k :| 0 <= k < |group| && IsExtra(group[k], chosen, x) {
        assert k > 0 ==> group[1..][k - 1] == group[k];
      }
      if k :| 0 <= k < |group[1..]| && IsExtra(group[1..][k], chosen, x) {
        assert group[k + 1] == group[1..][k];
      }
    }
  }

  lemma {:induction false} ChosenExactly(options: seq<seq<Choice>>, chosen: seq<string>, x: Extra)
    ensures x in Chosen(options, chosen) <==> Picked(options, chosen, x)
  {
    if options != [] {
      ChosenInExactly(options[0], chosen, x);
      ChosenExactly(options[1..], chosen, x);
      if g, k :| 0 <= g < |options| && 0 <= k < |options[g]| && IsExtra(options[g][k], chosen, x) {
        assert g > 0 ==> options[1..][g - 1] == options[g];
        if g > 0 {
          assert Picked(options[1..], chosen, x);
        }
      }
      if Picked(options[1..], chosen, x) {
        var g, k :| 0 <= g < |options[1..]| && 0 <= k < |options[1..][g]| && IsExtra(options[1..][g][k], chosen, x);
        assert options[g + 1][k] == options[1..][g][k];
      }
    }
  }

  /** What a line resolves to: nothing when no item has its id, else the first such item's
      name and price, the line's quantity, and as extras exactly the options it picked. */
  lemma {:induction false} ResolvedExactly(items: seq<Item>, l: CartLine, i: nat)
    requires i <= |items| && forall j :: 0 <= j < i ==> items[j].id != l.itemId
    requires i < |items| ==> items[i].id == l.itemId
    ensures ResolveLine(items, l).None? <==> i == |items|
    ensures i < |items| ==>
      var r := ResolveLine(items, l).value;
      && r.name == items[i].name && r.price == items[i].price && r.qty == l.qty
      && forall x :: x in r.choices <==> Picked(items[i].options, l.choices, x)
  {
    var f := FindItemExactly(items, l.itemId);
    assert f == i;
    if i < |items| {
      forall x ensures x in Chosen(items[i].options, l.choices) <==> Picked(items[i].options, l.choices, x) {
        ChosenExactly(items[i].options, l.choices, x);
      }
    }
  }

  /** Lines resolve one by one, in order, and those the menu lost are left out. */
  lemma {:induction false} ResolvedInOrder(menu: seq<Item>, a: Cart, b: Cart)
    ensures ResolveCart(Some(menu), a + b) == ResolveCart(Some(menu), a) + ResolveCart(Some(menu), b)
    ensures forall l :: ResolveCart(Some(menu), [l]) == if ResolveLine(menu, l).Some? then [ResolveLine(menu, l).value] else []
    ensures ResolveCart(None, a) == []
    decreases |a|
  {
    hide ResolveLine;
    forall l: CartLine
      ensures ResolveCart(Some(menu), [l]) == if ResolveLine(menu, l).Some? then [ResolveLine(menu, l).value] else []
    {
      assert [l][1..] == [];
    }
    if a == [] {
      assert a + b == b;
    } else {
      assert (a + b)[1..] == a[1..] + b;
      ResolvedInOrder(menu, a[1..], b);
    }
  }

  /** Quantities are cut to whole units, and none is below 0. */
  lemma WholeExactly(qty: real)
    ensures qty < 0.0 ==> Whole(qty) == 0
    ensures qty >= 0.0 ==> 0 <= Whole(qty) && Whole(qty) as real <= qty < (Whole(qty) + 1) as real
  {
  }

  lemma {:induction false} ExtrasSum(p: Parser, a: seq<Extra>, b: seq<Extra>)
    ensures ExtrasWei(p, a + b) ==
      (var x, y := ExtrasWei(p, a), ExtrasWei(p, b); if x.None? || y.None? then None else Some(x.value + y.value))
    decreases |b|
  {
    if b == [] {
      assert a + b == a;
    } else {
      var n := |b| - 1;
      assert (a + b)[..|a + b| - 1] == a + b[..n] && (a + b)[|a + b| - 1] == b[n];
      ExtrasSum(p, a, b[..n]);
    }
  }

  /** A line can be priced exactly when its base price and every extra parse, an empty price
      standing for "0". */
  lemma {:induction false} PricedExactly(p: Parser, l: ResolvedLine)
    ensures UnitWei(p, l).Some? <==>
      && p(if l.price == "" then "0" else l.price).Some?
      && forall x :: x in l.choices ==> p(if x.priceDelta == "" then "0" else x.priceDelta).Some?
  {
    ExtrasParse(p, l.choices);
  }

  lemma {:induction false} ExtrasParse(p: Parser, choices: seq<Extra>)
    ensures ExtrasWei(p, choices).Some? <==>
      forall x :: x in choices ==> p(if x.priceDelta == "" then "0" else x.priceDelta).Some?
    decreases |choices|
  {
    if choices != [] {
      var n := |choices| - 1;
      ExtrasParse(p, choices[..n]);
      assert choices == choices[..n] + [choices[n]];
      assert choices[n] in choices;
    }
  }

  function Flat(options: seq<seq<Choice>>): seq<Choice> {
    if options == [] then [] else options[0] + Flat(options[1..])
  }

  lemma {:induction false} ChosenInConcat(a: seq<Choice>, b: seq<Choice>, chosen: seq<string>)
    ensures ChosenIn(a + b, chosen) == ChosenIn(a, chosen) + ChosenIn(b, chosen)
  {
    if a == [] {
      assert a + b == b;
    } else {
      assert (a + b)[1..] == a[1..] + b;
      ChosenInConcat(a[1..], b, chosen);
    }
  }

  lemma {:induction false} ChosenIsFlat(options: seq<seq<Choice>>, chosen: seq<string>)
    ensures Chosen(options, chosen) == ChosenIn(Flat(options), chosen)
  {
    if options != [] {
      ChosenIsFlat(options[1..], chosen);
      ChosenInConcat(options[0], Flat(options[1..]), chosen);
    }
  }

  lemma {:induction false} NonePicked(group: seq<Choice>)
    ensures ChosenIn(group, []) == []
  {
    if group != [] {
      NonePicked(group[1..]);
    }
  }

  lemma {:induction false} OthersUnmoved(group: seq<Choice>, chosen: seq<string>, id: string)
    requires forall j :: 0 <= j < |group| ==> group[j].id != id
    ensures ChosenIn(group, chosen + [id]) == ChosenIn(group, chosen)
  {
    if group != [] {
      OthersUnmoved(group[1..], chosen, id);
    }
  }

  /** Without options a unit costs the item's own price. */
  lemma {:induction false} PlainPrice(p: Parser, items: seq<Item>, l: CartLine, i: nat)
    requires i < |items| && items[i].id == l.itemId && forall j :: 0 <= j < i ==> items[j].id != l.itemId
    requires l.choices == []
    ensures ResolveLine(items, l).Some?
    ensures UnitWei(p, ResolveLine(items, l).value) == p(if items[i].price == "" then "0" else items[i].price)
  {
    var f := FindItemExactly(items, l.itemId);
    assert f == i;
    ChosenIsFlat(items[i].options, []);
    NonePicked(Flat(items[i].options));
  }

  /** Picking one more option, one that the item lists once and the line had not picked,
      adds its price to a unit. */
  lemma {:induction false} OneMoreOption(p: Parser, items: seq<Item>, l: CartLine, i: nat, k: nat, id: string)
    requires i < |items| && items[i].id == l.itemId && forall j :: 0 <= j < i ==> items[j].id != l.itemId
    requires k < |Flat(items[i].options)| && id !in l.choices
    requires forall j :: 0 <= j < |Flat(items[i].options)| ==> (Flat(items[i].options)[j].id == id <==> j == k)
    ensures var more := l.(choices := l.choices + [id]);
      var delta := p(OrZeroText(Flat(items[i].options)[k].priceDelta));
      && ResolveLine(items, l).Some? && ResolveLine(items, more).Some?
      && var before, after := UnitWei(p, ResolveLine(items, l).value), UnitWei(p, ResolveLine(items, more).value);
        && (after.Some? <==> before.Some? && delta.Some?)
        && (after.Some? ==> after.value == before.value + delta.value)
  {
    var f := FindItemExactly(items, l.itemId);
    assert f == i;
    var group, chosen := Flat(items[i].options), l.choices;
    ChosenIsFlat(items[i].options, chosen);
    ChosenIsFlat(items[i].options, chosen + [id]);
    OneMoreExtra(p, group, chosen, k, id);
  }

  lemma {:induction false} OneMoreExtra(p: Parser, group: seq<Choice>, chosen: seq<string>, k: nat, id: string)
    requires k < |group| && id !in chosen
    requires forall j :: 0 <= j < |group| ==> (group[j].id == id <==> j == k)
    ensures var before, after := ExtrasWei(p, ChosenIn(group, chosen)), ExtrasWei(p, ChosenIn(group, chosen + [id]));
      var delta := p(OrZeroText(group[k].priceDelta));
      && (after.Some? <==> before.Some? && delta.Some?)
      && (after.Some? ==> after.value == before.value + delta.value)
  {
    var lo, c, hi := group[..k], group[k], group[k + 1..];
    assert group == lo + ([c] + hi);
    forall s: seq<string> ensures ChosenIn(group, s) == ChosenIn(lo, s) + (ChosenIn([c], s) + ChosenIn(hi, s)) {
      ChosenInConcat(lo, [c] + hi, s);
      ChosenInConcat([c], hi, s);
    }
    OthersUnmoved(lo, chosen, id);
    OthersUnmoved(hi, chosen, id);
    assert [c][1..] == [];
    var extra := [Extra(c.name, OrZeroText(c.priceDelta))];
    assert ChosenIn([c], chosen) == [] && ChosenIn([c], chosen + [id]) == extra;
    var a, b := ChosenIn(lo, chosen), ChosenIn(hi, chosen);
    ThreeSums(p, a, [], b);
    ThreeSums(p, a, extra, b);
    assert extra[..0] == [];
    assert OrZeroText(OrZeroText(c.priceDelta)) == OrZeroText(c.priceDelta);
  }

  lemma {:induction false} ThreeSums(p: Parser, a: seq<Extra>, b: seq<Extra>, c: seq<Extra>)
    ensures ExtrasWei(p, a + (b + c)) ==
      (var x, y, z := ExtrasWei(p, a), ExtrasWei(p, b), ExtrasWei(p, c);
       if x.None? || y.None? || z.None? then None else Some(x.value + y.value + z.value))
  {
    ExtrasSum(p, a, b + c);
    ExtrasSum(p, b, c);
  }

  // ---- what a key identifies ----------------------------------------------

  predicate Lacks(s: string, c: char) {
    forall k :: 0 <= k < |s| ==> s[k] != c
  }

  /** Ids as menus mint them: no separator in an item id, choice ids not empty and without
      the list separator. */
  ghost predicate PlainIds(itemId: string, choices: seq<string>) {
    Lacks(itemId, '|') && forall k :: 0 <= k < |choices| ==> choices[k] != "" && Lacks(choices[k], ',')
  }

  lemma {:induction false} SplitAtFirst(a: string, x: string, b: string, y: string, c: char)
    requires Lacks(a, c) && Lacks(b, c) && a + [c] + x == b + [c] + y
    ensures a == b && x == y
  {
    var s, t := a + [c] + x, b + [c] + y;
    FirstChar(a, x, c);
    FirstChar(b, y, c);
    if a != "" && b != "" {
      assert s[1..] == a[1..] + [c] + x && t[1..] == b[1..] + [c] + y;
      SplitAtFirst(a[1..], x, b[1..], y, c);
      assert a == [a[0]] + a[1..] && b == [b[0]] + b[1..];
    } else {
      assert a == "" ==> s[1..] == x;
      assert b == "" ==> t[1..] == y;
    }
  }

  lemma FirstChar(a: string, x: string, c: char)
    requires Lacks(a, c)
    ensures (a + [c] + x)[0] == c <==> a == ""
    ensures a != "" ==> (a + [c] + x)[0] == a[0]
  {
  }

  ghost predicate PlainParts(parts: seq<string>) {
    forall k :: 0 <= k < |parts| ==> parts[k] != "" && Lacks(parts[k], ',')
  }

  /** A text cut at its commas. */
  function Cut(s: string): (parts: seq<string>)
    ensures |parts| > 0
  {
    if s == "" then [""]
    else
      var rest := Cut(s[1..]);
      if s[0] == ',' then [""] + rest else [[s[0]] + rest[0]] + rest[1..]
  }

  /** What is left of a list of ids once it is joined: every id cut at its commas, and one
      empty piece for the empty list. */
  function Pieces(parts: seq<string>): seq<string> {
    if parts == [] then [""]
    else if |parts| == 1 then Cut(parts[0])
    else Cut(parts[0]) + Pieces(parts[1..])
  }

  lemma {:induction false} CutGlued(a: string, b: string)
    ensures Cut(a + [','] + b) == Cut(a) + Cut(b)
  {
    var s := a + [','] + b;
    if a == "" {
      assert s[1..] == b;
    } else {
      assert s[0] == a[0] && s[1..] == a[1..] + [','] + b;
      CutGlued(a[1..], b);
    }
  }

  lemma {:induction false} CutJoined(parts: seq<string>)
    ensures Cut(Join(parts)) == Pieces(parts)
  {
    if |parts| > 1 {
      CutJoined(parts[1..]);
      CutGlued(parts[0], Join(parts[1..]));
      assert Join(parts) == parts[0] + [','] + Join(parts[1..]);
    }
  }

  lemma {:induction false} JoinNext(part: string, rest: seq<string>)
    requires rest != []
    ensures Join([part] + rest) == part + [','] + Join(rest)
  {
    assert ([part] + rest)[1..] == rest;
  }

  lemma {:induction false} JoinLonger(c: char, parts: seq<string>)
    requires parts != []
    ensures Join([[c] + parts[0]] + parts[1..]) == [c] + Join(parts)
  {
    var longer := [[c] + parts[0]] + parts[1..];
    assert longer[1..] == parts[1..];
  }

  lemma {:induction false} JoinCut(s: string)
    ensures Join(Cut(s)) == s
  {
    if s != "" {
      hide Join;
      var rest := Cut(s[1..]);
      JoinCut(s[1..]);
      assert s == [s[0]] + s[1..];
      if s[0] == ',' {
        JoinNext("", rest);
      } else {
        JoinLonger(s[0], rest);
      }
    }
  }

  lemma {:induction false} CutPlain(s: string)
    requires Lacks(s, ',')
    ensures Cut(s) == [s]
  {
    if s != "" {
      CutPlain(s[1..]);
      assert s == [s[0]] + s[1..];
    }
  }

  lemma {:induction false} PiecesPlain(parts: seq<string>)
    requires PlainParts(parts)
    ensures Pieces(parts) == if parts == [] then [""] else parts
  {
    if parts != [] {
      CutPlain(parts[0]);
      PiecesPlain(parts[1..]);
      assert parts == [parts[0]] + parts[1..];
    }
  }

  lemma NoBlank(parts: seq<string>)
    requires PlainParts(parts)
    ensures parts != [""]
  {
    assert parts != [] ==> parts[0] != "";
  }

  lemma SplitAtLast(a: string, x: string, b: string, y: string, c: char)
    requires Lacks(x, c) && Lacks(y, c) && a + [c] + x == b + [c] + y
    ensures a == b && x == y
  {
    var s, t := a + [c] + x, b + [c] + y;
    assert s[|a|] == c && t[|b|] == c;
    assert |a| == |b|;
    assert s[..|a|] == a && t[..|b|] == b && s[|a| + 1..] == x && t[|b| + 1..] == y;
  }

  ghost predicate AllLack(parts: seq<string>, c: char) {
    forall k :: 0 <= k < |parts| ==> Lacks(parts[k], c)
  }

  lemma {:induction false} JoinLacks(parts: seq<string>, c: char)
    requires AllLack(parts, c) && c != ','
    ensures Lacks(Join(parts), c)
  {
    if |parts| > 1 {
      JoinLacks(parts[1..], c);
    }
  }

  // ---- string order -------------------------------------------------------

  lemma {:induction false} StrLeTotal(a: string, b: string)
    ensures StrLe(a, b) || StrLe(b, a)
  {
    if a != "" && b != "" {
      StrLeTotal(a[1..], b[1..]);
    }
  }

  lemma {:induction false} StrLeTransitive(a: string, b: string, c: string)
    requires StrLe(a, b) && StrLe(b, c)
    ensures StrLe(a, c)
  {
    if a != "" && b != "" && c != "" && a[0] == b[0] == c[0] {
      StrLeTransitive(a[1..], b[1..], c[1..]);
    }
  }

  lemma {:induction false} StrLeAntisymmetric(a: string, b: string)
    requires StrLe(a, b) && StrLe(b, a)
    ensures a == b
  {
    if a != "" && b != "" {
      StrLeAntisymmetric(a[1..], b[1..]);
      assert a == [a[0]] + a[1..] && b == [b[0]] + b[1..];
    }
  }

  lemma StrLeOrders()
    ensures TotalPreorder(StrLe) && WithoutTies(StrLe)
  {
    forall x, y ensures StrLe(x, y) || StrLe(y, x) {
      StrLeTotal(x, y);
    }
    forall x, y, z | StrLe(x, y) && StrLe(y, z) ensures StrLe(x, z) {
      StrLeTransitive(x, y, z);
    }
    forall x, y | StrLe(x, y) && StrLe(y, x) ensures x == y {
      StrLeAntisymmetric(x, y);
    }
  }

  /** Sorting forgets exactly the order. */
  lemma {:induction false} SortForgetsOrder(a: seq<string>, b: seq<string>)
    ensures SortBy(a, StrLe) == SortBy(b, StrLe) <==> multiset(a) == multiset(b)
  {
    StrLeOrders();
    SortByPermutes(a, StrLe);
    SortByPermutes(b, StrLe);
    SortBySorted(a, StrLe);
    SortBySorted(b, StrLe);
    if multiset(a) == multiset(b) {
      SortedUnique(SortBy(a, StrLe), SortBy(b, StrLe), StrLe);
    }
  }

  lemma {:induction false} SortedMember(choices: seq<string>, k: nat)
    requires k < |choices|
    ensures exists j :: 0 <= j < |choices| && choices[j] == SortBy(choices, StrLe)[k]
  {
    SortByMembers(choices, StrLe);
    var x := SortBy(choices, StrLe)[k];
    assert x in SortBy(choices, StrLe);
  }

  /** Two keys are equal exactly when the items are and the sorted choices fall into the same
      pieces, provided the '|' that ends an item id can be told: item ids have none, or
      choice ids have none. */
  lemma {:induction false} KeysEqualExactly(a: string, cs: seq<string>, b: string, ds: seq<string>)
    requires (Lacks(a, '|') && Lacks(b, '|')) || (AllLack(cs, '|') && AllLack(ds, '|'))
    ensures LineKey(a, cs) == LineKey(b, ds) <==>
      a == b && Pieces(SortBy(cs, StrLe)) == Pieces(SortBy(ds, StrLe))
  {
    hide SortBy, Join, Pieces, Cut;
    var s, t := SortBy(cs, StrLe), SortBy(ds, StrLe);
    CutJoined(s);
    CutJoined(t);
    JoinCut(Join(s));
    JoinCut(Join(t));
    if LineKey(a, cs) == LineKey(b, ds) {
      if Lacks(a, '|') && Lacks(b, '|') {
        SplitAtFirst(a, Join(s), b, Join(t), '|');
      } else {
        SortedLacks(cs);
        SortedLacks(ds);
        SplitAtLast(a, Join(s), b, Join(t), '|');
      }
    }
  }

  lemma {:induction false} SortedLacks(choices: seq<string>)
    requires AllLack(choices, '|')
    ensures Lacks(Join(SortBy(choices, StrLe)), '|')
  {
    hide SortBy, Join;
    forall k | 0 <= k < |choices| ensures Lacks(SortBy(choices, StrLe)[k], '|') {
      SortedMember(choices, k);
    }
    JoinLacks(SortBy(choices, StrLe), '|');
  }

  lemma {:induction false} SortedPlain(choices: seq<string>)
    requires PlainParts(choices)
    ensures PlainParts(SortBy(choices, StrLe))
  {
    hide SortBy;
    forall k | 0 <= k < |choices| ensures SortBy(choices, StrLe)[k] != "" && Lacks(SortBy(choices, StrLe)[k], ',') {
      SortedMember(choices, k);
    }
  }

  /** With plain ids a key says which item and which choices, and only forgets their order. */
  lemma KeyIdentifies(a: string, cs: seq<string>, b: string, ds: seq<string>)
    requires PlainIds(a, cs) && PlainIds(b, ds)
    ensures LineKey(a, cs) == LineKey(b, ds) <==> a == b && multiset(cs) == multiset(ds)
  {
    hide SortBy, Pieces, LineKey;
    KeysEqualExactly(a, cs, b, ds);
    SortForgetsOrder(cs, ds);
    SortedPlain(cs);
    SortedPlain(ds);
    PiecesPlain(SortBy(cs, StrLe));
    PiecesPlain(SortBy(ds, StrLe));
    NoBlank(SortBy(cs, StrLe));
    NoBlank(SortBy(ds, StrLe));
  }

  /** A separator inside a choice id, or an empty one, makes different selections collide. */
  lemma SeparatorsCollide(itemId: string)
    ensures LineKey(itemId, ["b,c"]) == LineKey(itemId, ["b", "c"])
    ensures LineKey(itemId, [""]) == LineKey(itemId, [])
  {
    assert ["b", "c"][1..] == ["c"] && ["c"][1..] == [] && ["b,c"][1..] == [] && [""][1..] == [];
    assert SortBy(["c"], StrLe) == ["c"];
    assert SortBy(["b", "c"], StrLe) == ["b", "c"];
    assert Join(["b", "c"]) == "b" + "," + Join(["c"]) == "b,c";
    assert SortBy(["b,c"], StrLe) == ["b,c"] && SortBy([""], StrLe) == [""];
  }

  // ---- what adding costs --------------------------------------------------

  /** Price of one unit of a configuration, 0 if it cannot be priced. */
  function UnitPrice(p: Parser, menu: Option<seq<Item>>, itemId: string, choices: seq<string>): int {
    if menu.None? then 0
    else
      var l := ResolveLine(menu.value, CartLine(itemId, 0.0, choices));
      if l.None? || UnitWei(p, l.value).None? then 0 else UnitWei(p, l.value).value
  }

  function Worth(p: Parser, menu: Option<seq<Item>>, l: CartLine): int {
    UnitPrice(p, menu, l.itemId, l.choices) * Whole(l.qty)
  }

  function TotalWorth(p: Parser, menu: Option<seq<Item>>, cart: Cart): int {
    if cart == [] then 0 else Worth(p, menu, cart[0]) + TotalWorth(p, menu, cart[1..])
  }

  lemma {:induction false} ResolvedConcat(p: Parser, a: seq<ResolvedLine>, b: seq<ResolvedLine>)
    ensures ResolvedTotal(p, a + b) == ResolvedTotal(p, a) + ResolvedTotal(p, b)
    decreases |b|
  {
    if b == [] {
      assert a + b == a;
    } else {
      assert (a + b)[..|a + b| - 1] == a + b[..|b| - 1];
      ResolvedConcat(p, a, b[..|b| - 1]);
    }
  }

  lemma OneResolved(p: Parser, menu: seq<Item>, l: CartLine)
    requires ResolveLine(menu, l).Some?
    ensures ResolvedTotal(p, [ResolveLine(menu, l).value]) == Worth(p, Some(menu), l)
  {
    var r := ResolveLine(menu, l).value;
    assert [r][..0] == [];
    assert ResolvedTotal(p, [r]) == ResolvedWorth(p, r);
    assert UnitWei(p, r) == UnitWei(p, r.(qty := 0.0));
  }

  /** The cart total is the sum of its lines' worths. */
  lemma {:induction false} TotalIsWorth(p: Parser, menu: Option<seq<Item>>, cart: Cart)
    ensures ResolvedTotal(p, ResolveCart(menu, cart)) == TotalWorth(p, menu, cart)
  {
    if cart != [] {
      TotalIsWorth(p, menu, cart[1..]);
      HeadWorth(p, menu, cart);
    }
  }

  lemma {:induction false} HeadWorth(p: Parser, menu: Option<seq<Item>>, cart: Cart)
    requires cart != []
    ensures ResolvedTotal(p, ResolveCart(menu, cart)) == Worth(p, menu, cart[0]) + ResolvedTotal(p, ResolveCart(menu, cart[1..]))
  {
    hide ResolvedTotal, UnitWei, Whole;
    if menu.Some? && ResolveLine(menu.value, cart[0]).Some? {
      OneResolved(p, menu.value, cart[0]);
      ResolvedConcat(p, [ResolveLine(menu.value, cart[0]).value], ResolveCart(menu, cart[1..]));
    } else {
      assert ResolveCart(menu, cart) == ResolveCart(menu, cart[1..]);
    }
  }

  lemma {:induction false} WorthAppend(p: Parser, menu: Option<seq<Item>>, cart: Cart, l: CartLine)
    ensures TotalWorth(p, menu, cart + [l]) == TotalWorth(p, menu, cart) + Worth(p, menu, l)
  {
    if cart == [] {
      assert cart + [l] == [l] && [l][1..] == [];
    } else {
      assert (cart + [l])[1..] == cart[1..] + [l];
      WorthAppend(p, menu, cart[1..], l);
    }
  }

  lemma {:induction false} WorthUpdate(p: Parser, menu: Option<seq<Item>>, cart: Cart, i: nat, l: CartLine)
    requires i < |cart|
    ensures TotalWorth(p, menu, cart[i := l]) == TotalWorth(p, menu, cart) - Worth(p, menu, cart[i]) + Worth(p, menu, l)
  {
    if i == 0 {
      assert cart[i := l][1..] == cart[1..];
    } else {
      assert cart[i := l][1..] == cart[1..][i - 1 := l];
      WorthUpdate(p, menu, cart[1..], i - 1, l);
    }
  }

  lemma {:induction false} KeepPositiveAll(cart: Cart)
    requires forall i :: 0 <= i < |cart| ==> cart[i].qty > 0.0
    ensures KeepPositive(cart) == cart
  {
    if cart != [] {
      KeepPositiveAll(cart[1..]);
      assert cart == [cart[0]] + cart[1..];
    }
  }

  lemma WholeAdds(x: real, q: nat)
    requires x >= 0.0
    ensures Whole(x + q as real) == Whole(x) + q
  {
  }

  lemma WorthMore(p: Parser, menu: Option<seq<Item>>, l: CartLine, q: nat)
    requires l.qty >= 0.0
    ensures Worth(p, menu, l.(qty := l.qty + q as real)) == Worth(p, menu, l) + q * UnitPrice(p, menu, l.itemId, l.choices)
  {
    hide UnitPrice;
    WholeAdds(l.qty, q);
    Distribute(UnitPrice(p, menu, l.itemId, l.choices), Whole(l.qty), q);
  }

  lemma WorthNothing(p: Parser, menu: Option<seq<Item>>, itemId: string, choices: seq<string>)
    ensures Worth(p, menu, CartLine(itemId, 0.0, choices)) == 0
  {
  }

  /** Adding q units raises the total by q times the unit price of the line they end up in. */
  lemma AddRaisesLine(p: Parser, menu: Option<seq<Item>>, cart: Cart, itemId: string, choices: seq<string>, q: nat)
    requires ValidCart(cart) && q > 0
    ensures var i := FindLine(cart, itemId, choices);
      var l := if i < |cart| then cart[i] else CartLine(itemId, 0.0, choices);
      TotalWorth(p, menu, AddToCart(cart, itemId, choices, q as real))
      == TotalWorth(p, menu, cart) + q * UnitPrice(p, menu, l.itemId, l.choices)
  {
    hide UnitPrice, FindLine, LineKey, Worth, TotalWorth, KeepPositive;
    var i := FindLine(cart, itemId, choices);
    if i < |cart| {
      var l := cart[i].(qty := cart[i].qty + q as real);
      KeepPositiveAll(cart[i := l]);
      WorthUpdate(p, menu, cart, i, l);
      WorthMore(p, menu, cart[i], q);
    } else {
      var l := CartLine(itemId, 0.0, choices);
      assert 0.0 + q as real == q as real;
      WorthAppend(p, menu, cart, CartLine(itemId, q as real, choices));
      WorthMore(p, menu, l, q);
      WorthNothing(p, menu, itemId, choices);
    }
  }

  lemma Distribute(u: int, a: int, b: int)
    ensures u * (a + b) == u * a + b * u
  {
  }

  lemma {:induction false} ChosenByMembers(options: seq<seq<Choice>>, a: seq<string>, b: seq<string>)
    requires forall x :: x in a <==> x in b
    ensures Chosen(options, a) == Chosen(options, b)
  {
    if options != [] {
      ChosenInByMembers(options[0], a, b);
      ChosenByMembers(options[1..], a, b);
    }
  }

  lemma {:induction false} ChosenInByMembers(group: seq<Choice>, a: seq<string>, b: seq<string>)
    requires forall x :: x in a <==> x in b
    ensures ChosenIn(group, a) == ChosenIn(group, b)
  {
    if group != [] {
      ChosenInByMembers(group[1..], a, b);
    }
  }

  /** With plain ids, adding q > 0 units of a configuration raises `cartTotal` by q times the
      price of that configuration, merged or not. */
  lemma AddRaisesTotal(p: Parser, menu: Option<seq<Item>>, cart: Cart, itemId: string, choices: seq<string>, q: nat)
    requires ValidCart(cart) && q > 0
    requires PlainIds(itemId, choices)
    requires forall k :: 0 <= k < |cart| ==> PlainIds(cart[k].itemId, cart[k].choices)
    ensures ResolvedTotal(p, ResolveCart(menu, AddToCart(cart, itemId, choices, q as real)))
         == ResolvedTotal(p, ResolveCart(menu, cart)) + q * UnitPrice(p, menu, itemId, choices)
  {
    hide LineKey, ResolvedTotal, ResolveCart, AddToCart, TotalWorth;
    TotalIsWorth(p, menu, cart);
    TotalIsWorth(p, menu, AddToCart(cart, itemId, choices, q as real));
    AddRaisesLine(p, menu, cart, itemId, choices, q);
    var i := FindLine(cart, itemId, choices);
    if i < |cart| {
      KeyIdentifies(cart[i].itemId, cart[i].choices, itemId, choices);
      SamePrice(p, menu, itemId, cart[i].choices, choices);
    }
  }

  lemma SamePrice(p: Parser, menu: Option<seq<Item>>, itemId: string, a: seq<string>, b: seq<string>)
    requires multiset(a) == multiset(b)
    ensures UnitPrice(p, menu, itemId, a) == UnitPrice(p, menu, itemId, b)
  {
    forall x ensures x in a <==> x in b {
      assert x in a <==> x in multiset(a);
      assert x in b <==> x in multiset(b);
    }
    if menu.Some? && FindItem(menu.value, itemId).Some? {
      ChosenByMembers(FindItem(menu.value, itemId).value.options, a, b);
    }
  }
}
