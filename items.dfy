/**
 * The kitchen items of the code-a-la-mode bot (src/bin/code-a-la-mode.rs):
 * their names, the `-`-separated lists the referee sends for hands, tables
 * and orders, and the difference of two lists.
 */
module Items {
  import opened Wrappers

  datatype ItemType = Dish | Blueberries | IceCream | Strawberries | ChoppedStrawberries | Croissant | Dough

  /** The name the referee uses for an item. */
  function ItemName(t: ItemType): string
  {
    match t
    case Dish => "DISH"
    case Blueberries => "BLUEBERRIES"
    case IceCream => "ICE_CREAM"
    case Strawberries => "STRAWBERRIES"
    case ChoppedStrawberries => "CHOPPED_STRAWBERRIES"
    case Croissant => "CROISSANT"
    case Dough => "DOUGH"
  }

  /** `ItemType::from_str`; None where the Rust code panics on an unknown name. */
  function ItemFromStr(s: string): (r: Option<ItemType>)
    ensures r.None? ==> forall t :: ItemName(t) != s
    ensures r.Some? ==> ItemName(r.value) == s
  {
    if s == "DISH" then Some(Dish)
    else if s == "BLUEBERRIES" then Some(Blueberries)
    else if s == "ICE_CREAM" then Some(IceCream)
    else if s == "STRAWBERRIES" then Some(Strawberries)
    else if s == "CHOPPED_STRAWBERRIES" then Some(ChoppedStrawberries)
    else if s == "CROISSANT" then Some(Croissant)
    else if s == "DOUGH" then Some(Dough)
    else None
  }

  /** Every name is read back as its item. */
  lemma ItemNameRoundTrip(t: ItemType)
    ensures ItemFromStr(ItemName(t)) == Some(t)
    ensures '-' !in ItemName(t) && ItemName(t) != "NONE"
  {
  }

  /** `str::split(sep)`: the pieces between separators; always at least one, possibly empty ones. */
  function Split(s: string, sep: char): (r: seq<string>)
    ensures |r| >= 1
    ensures forall i :: 0 <= i < |r| ==> sep !in r[i]
    ensures Join(r, sep) == s
  {
    if s == [] then [[]]
    else
      var rest := Split(s[1..], sep);
      if s[0] == sep then
        assert s == [sep] + s[1..];
        [[]] + rest
      else
        var r := [[s[0]] + rest[0]] + rest[1..];
        assert r[1..] == rest[1..];
        JoinFirst(rest, [s[0]], sep);
        assert s == [s[0]] + s[1..];
        r
  }

  /** The pieces glued back with the separator between them. */
  function Join(parts: seq<string>, sep: char): string
  {
    if parts == [] then []
    else if |parts| == 1 then parts[0]
    else parts[0] + [sep] + Join(parts[1..], sep)
  }

  lemma JoinFirst(parts: seq<string>, a: string, sep: char)
    requires parts != []
    ensures Join([a + parts[0]] + parts[1..], sep) == a + Join(parts, sep)
  {
    var q := [a + parts[0]] + parts[1..];
    assert q[1..] == parts[1..];
  }

  /** Splitting a join of separator-free pieces gives the pieces back. */
  lemma {:induction false} SplitJoin(parts: seq<string>, sep: char)
    requires parts != [] && forall i :: 0 <= i < |parts| ==> sep !in parts[i]
    ensures Split(Join(parts, sep), sep) == parts
    decreases |parts|, |parts[0]|
  {
    if parts[0] != [] {
      var tail := [parts[0][1..]] + parts[1..];
      assert tail[1..] == parts[1..];
      SplitJoin(tail, sep);
      SplitJoinHead(parts, sep);
    } else if |parts| > 1 {
      SplitJoin(parts[1..], sep);
      SplitJoinEmpty(parts, sep);
    }
  }

  /** A first piece that is not empty: its first character leads the text, and the rest splits as before. */
  lemma SplitJoinHead(parts: seq<string>, sep: char)
    requires parts != [] && parts[0] != [] && sep !in parts[0]
    requires var tail := [parts[0][1..]] + parts[1..]; Split(Join(tail, sep), sep) == tail
    ensures Split(Join(parts, sep), sep) == parts
  {
    var p0 := parts[0];
    var tail := [p0[1..]] + parts[1..];
    assert tail[1..] == parts[1..];
    JoinFirst(tail, [p0[0]], sep);
    assert [p0[0]] + p0[1..] == p0;
    assert [[p0[0]] + tail[0]] + tail[1..] == parts;
    var s := Join(parts, sep);
    assert s[1..] == Join(tail, sep);
  }

  /** An empty first piece: the text starts with the separator, followed by the join of the others. */
  lemma SplitJoinEmpty(parts: seq<string>, sep: char)
    requires |parts| > 1 && parts[0] == []
    requires Split(Join(parts[1..], sep), sep) == parts[1..]
    ensures Split(Join(parts, sep), sep) == parts
  {
    var s := Join(parts, sep);
    assert s == [sep] + Join(parts[1..], sep);
    assert s[1..] == Join(parts[1..], sep);
    assert [[]] + parts[1..] == parts;
  }

  /** Every piece decoded in order; None as soon as one is not an item name. */
  function DecodeAll(parts: seq<string>): (r: Option<seq<ItemType>>)
    ensures r.Some? ==> |r.value| == |parts| && forall i :: 0 <= i < |parts| ==> ItemName(r.value[i]) == parts[i]
    ensures r.None? ==> exists i :: 0 <= i < |parts| && ItemFromStr(parts[i]).None?
  {
    if parts == [] then Some([])
    else
      match ItemFromStr(parts[0])
      case None => None
      case Some(t) =>
        match DecodeAll(parts[1..])
        case None => None
        case Some(ts) => Some([t] + ts)
  }

  /** `ItemType::decode_full_item`: "NONE" is the empty list, otherwise `-`-separated item names. */
  function DecodeFullItem(s: string): Option<seq<ItemType>>
  {
    if s == "NONE" then Some([]) else DecodeAll(Split(s, '-'))
  }

  /** The way the referee writes a list of items. */
  function EncodeFullItem(items: seq<ItemType>): string
  {
    if items == [] then "NONE" else Join(Names(items), '-')
  }

  function Names(items: seq<ItemType>): (r: seq<string>)
    ensures |r| == |items| && forall i :: 0 <= i < |items| ==> r[i] == ItemName(items[i])
  {
    seq(|items|, i requires 0 <= i < |items| => ItemName(items[i]))
  }

  /** Decoding reads back any written list. */
  lemma DecodeEncode(items: seq<ItemType>)
    ensures DecodeFullItem(EncodeFullItem(items)) == Some(items)
  {
    if items != [] {
      var names := Names(items);
      forall i | 0 <= i < |names| ensures '-' !in names[i] {
        ItemNameRoundTrip(items[i]);
      }
      SplitJoin(names, '-');
      JoinNotNone(items);
      DecodeNames(items);
    }
  }

  lemma {:induction false} DecodeNames(items: seq<ItemType>)
    ensures DecodeAll(Names(items)) == Some(items)
  {
    if items != [] {
      ItemNameRoundTrip(items[0]);
      DecodeNames(items[1..]);
      assert Names(items)[1..] == Names(items[1..]);
      assert [items[0]] + items[1..] == items;
    }
  }

  lemma JoinNotNone(items: seq<ItemType>)
    requires items != []
    ensures Join(Names(items), '-') != "NONE"
  {
    var names := Names(items);
    ItemNameRoundTrip(items[0]);
    if |items| > 1 {
      assert Join(names, '-')[|names[0]|] == '-';
      assert '-' !in "NONE";
    }
  }

  /** A list that decodes is written back as the very same text. */
  lemma EncodeDecode(s: string)
    requires DecodeFullItem(s).Some?
    ensures EncodeFullItem(DecodeFullItem(s).value) == s
  {
    if s != "NONE" {
      var parts := Split(s, '-');
      var items := DecodeFullItem(s).value;
      assert Names(items) == parts;
    }
  }

  /** The elements of `a` that do not occur in `b`, in order and with their repetitions. */
  function Missing(a: seq<ItemType>, b: seq<ItemType>): (r: seq<ItemType>)
    ensures forall x :: x in r <==> x in a && x !in b
  {
    if a == [] then []
    else
      var init := a[..|a| - 1];
      var x := a[|a| - 1];
      assert a == init + [x];
      Missing(init, b) + (if x !in b then [x] else [])
  }

  /** Each item of `a` missing from `b` is kept as often as it occurs in `a`. */
  lemma {:induction false} MissingCount(a: seq<ItemType>, b: seq<ItemType>, x: ItemType)
    ensures multiset(Missing(a, b))[x] == if x in b then 0 else multiset(a)[x]
  {
    if a != [] {
      var i := |a| - 1;
      MissingCount(a[..i], b, x);
      MissingStep(a, b, i);
      assert a[..i + 1] == a;
      assert multiset(a) == multiset(a[..i]) + multiset{a[i]} by {
        assert a == a[..i] + [a[i]];
      }
    }
  }

  lemma MissingStep(a: seq<ItemType>, b: seq<ItemType>, i: nat)
    requires i < |a|
    ensures Missing(a[..i + 1], b) == Missing(a[..i], b) + (if a[i] !in b then [a[i]] else [])
  {
    assert a[..i + 1][..i] == a[..i];
  }

  /**
   * `ItemType::diff`: what is in `a` but not in `b`, then what is in `b`
   * but not in `a`, each in its own order and with its repetitions.
   */
  method Diff(a: seq<ItemType>, b: seq<ItemType>) returns (diff: seq<ItemType>)
    ensures diff == Missing(a, b) + Missing(b, a)
  {
    diff := [];
    for i := 0 to |a|
      invariant diff == Missing(a[..i], b)
    {
      MissingStep(a, b, i);
      if a[i] !in b {
        diff := diff + [a[i]];
      }
    }
    assert a[..|a|] == a;
    ghost var front := diff;
    for i := 0 to |b|
      invariant diff == front + Missing(b[..i], a)
    {
      MissingStep(b, a, i);
      if b[i] !in a {
        diff := diff + [b[i]];
      }
    }
    assert b[..|b|] == b;
  }

  /** The difference is empty exactly when each list's items all occur in the other. */
  lemma DiffEmpty(a: seq<ItemType>, b: seq<ItemType>)
    ensures Missing(a, b) + Missing(b, a) == [] <==> (forall x :: x in a ==> x in b) && (forall x :: x in b ==> x in a)
  {
    if Missing(a, b) + Missing(b, a) != [] {
      var x := (Missing(a, b) + Missing(b, a))[0];
      assert x in Missing(a, b) || x in Missing(b, a);
    }
  }
}
