/**
 * WindowPosition: the "winposstr" setting, six comma-separated integers
 * (handle, window state, left, top, right, bottom) of a WINDOWPOS structure.
 */
module WindowPositions {
  import opened Wrappers
  import Text
  import Decimal

  /** The six integers, in the order the text lists them. */
  datatype Position = Position(handle: int, windowState: int, left: int, top: int, right: int, bottom: int)
  {
    /** Every component fits the 32-bit integers the properties are declared with. */
    predicate Valid()
    {
      && Decimal.IsInt32(handle) && Decimal.IsInt32(windowState)
      && Decimal.IsInt32(left) && Decimal.IsInt32(top)
      && Decimal.IsInt32(right) && Decimal.IsInt32(bottom)
    }
  }

  const Origin: Position := Position(0, 0, 0, 0, 0, 0)

  /** The items of the expression: split on ',' dropping empty pieces, then each piece trimmed. */
  function Items(expr: string): (items: seq<string>)
    ensures |items| == |Text.SplitNonEmpty(Some(expr), ',')|
    ensures forall k | 0 <= k < |items| :: items[k] == Text.Trim(Text.SplitNonEmpty(Some(expr), ',')[k])
  {
    var pieces := Text.SplitNonEmpty(Some(expr), ',');
    seq(|pieces|, k requires 0 <= k < |pieces| => Text.Trim(pieces[k]))
  }

  /** `items.ElementAtOrDefault(k) ?? "0"`: a missing item reads as "0". */
  function ItemText(items: seq<string>, k: nat): (t: string)
    ensures k < |items| ==> t == items[k]
    ensures k >= |items| ==> Decimal.ParseInt32(t) == Some(0)
  {
    if k < |items| then items[k] else ZeroParses(); "0"
  }

  lemma ZeroParses()
    ensures Decimal.ParseInt32("0") == Some(0)
  {
    Decimal.ParseInt32Text(0);
    assert Decimal.IntText(0) == "0";
  }

  /**
   * `int.TryParse(items.ElementAtOrDefault(k) ?? "0", out v)`: a missing item
   * reads as 0, and an item that does not parse leaves the component at 0.
   */
  function ItemValue(items: seq<string>, k: nat): (v: int)
    ensures Decimal.IsInt32(v)
    ensures k >= |items| ==> v == 0
    ensures k < |items| && Decimal.ParseInt32(items[k]).None? ==> v == 0
    ensures k < |items| && Decimal.ParseInt32(items[k]).Some? ==> v == Decimal.ParseInt32(items[k]).value
  {
    match Decimal.ParseInt32(ItemText(items, k))
    case Some(n) => n
    case None => 0
  }

  /** What the constructor leaves in the six properties; null or blank text leaves them all 0. */
  function Parse(expr: Option<string>): (p: Position)
    ensures p.Valid()
    ensures Text.IsNullOrWhiteSpace(expr) ==> p == Origin
  {
    if Text.IsNullOrWhiteSpace(expr) then Origin
    else
      var items := Items(expr.value);
      Position(ItemValue(items, 0), ItemValue(items, 1), ItemValue(items, 2),
               ItemValue(items, 3), ItemValue(items, 4), ItemValue(items, 5))
  }

  function Components(p: Position): (ns: seq<int>)
    ensures |ns| == 6
    ensures p.Valid() ==> forall k | 0 <= k < 6 :: Decimal.IsInt32(ns[k])
  {
    [p.handle, p.windowState, p.left, p.top, p.right, p.bottom]
  }

  /** The decimal text of each number, in order. */
  function IntTexts(ns: seq<int>): (ts: seq<string>)
    ensures |ts| == |ns|
    ensures forall k | 0 <= k < |ns| :: ts[k] == Decimal.IntText(ns[k])
  {
    seq(|ns|, k requires 0 <= k < |ns| => Decimal.IntText(ns[k]))
  }

  /** ToString(): the six components in decimal, joined by ','. */
  function Render(p: Position): string
  {
    Text.Join(IntTexts(Components(p)), ',')
  }

  /** The text of one 32-bit component is a non-empty, comma-free, trimmed item that parses back to it. */
  lemma ComponentText(n: int)
    requires Decimal.IsInt32(n)
    ensures Decimal.IntText(n) != [] && ',' !in Decimal.IntText(n)
    ensures Text.Trim(Decimal.IntText(n)) == Decimal.IntText(n)
    ensures Decimal.ParseInt32(Decimal.IntText(n)) == Some(n)
  {
    Decimal.IntTextShape(n);
    Decimal.ParseInt32Text(n);
  }

  /** The texts of 32-bit numbers are separable, already trimmed items that parse back to the numbers. */
  lemma TextsParse(ns: seq<int>)
    requires forall k | 0 <= k < |ns| :: Decimal.IsInt32(ns[k])
    ensures Text.SeparableItems(IntTexts(ns), ',')
    ensures forall k | 0 <= k < |ns| :: Text.Trim(IntTexts(ns)[k]) == IntTexts(ns)[k]
    ensures forall k | 0 <= k < |ns| :: Decimal.ParseInt32(IntTexts(ns)[k]) == Some(ns[k])
  {
    forall k | 0 <= k < |ns|
      ensures IntTexts(ns)[k] != [] && ',' !in IntTexts(ns)[k]
      ensures Text.Trim(IntTexts(ns)[k]) == IntTexts(ns)[k]
      ensures Decimal.ParseInt32(IntTexts(ns)[k]) == Some(ns[k])
    {
      ComponentText(ns[k]);
    }
  }

  /** Parsing the rendered text of a position gives the position back. */
  lemma ParseRender(p: Position)
    requires p.Valid()
    ensures Parse(Some(Render(p))) == p
  {
    var nums := Components(p);
    var texts := IntTexts(nums);
    TextsParse(nums);
    ItemsOfJoin(texts);
    var s := Render(p);
    Text.JoinStart(texts, ',');
    Decimal.IntTextShape(p.handle);
    ParseItems(s);
    assert ItemValue(texts, 0) == nums[0] && ItemValue(texts, 1) == nums[1] && ItemValue(texts, 2) == nums[2];
    assert ItemValue(texts, 3) == nums[3] && ItemValue(texts, 4) == nums[4] && ItemValue(texts, 5) == nums[5];
  }

  /** Joined separable, already trimmed items are read back as the same items. */
  lemma ItemsOfJoin(texts: seq<string>)
    requires texts != [] && Text.SeparableItems(texts, ',')
    requires forall k | 0 <= k < |texts| :: Text.Trim(texts[k]) == texts[k]
    ensures Items(Text.Join(texts, ',')) == texts
  {
    Text.SplitNonEmptyJoin(texts, ',');
  }

  /** A text that is not blank is parsed item by item. */
  lemma ParseItems(s: string)
    requires !Text.AllWhiteSpace(s)
    ensures var items := Items(s);
            Parse(Some(s)) == Position(ItemValue(items, 0), ItemValue(items, 1), ItemValue(items, 2),
                                       ItemValue(items, 3), ItemValue(items, 4), ItemValue(items, 5))
  {
  }

  /** Empty entries are dropped before the items are numbered: in "m,,n" the n is the window state. */
  lemma EmptyItemsSkipped(m: int, n: int)
    requires Decimal.IsInt32(m) && Decimal.IsInt32(n)
    ensures Parse(Some(Decimal.IntText(m) + ",," + Decimal.IntText(n))) == Position(m, n, 0, 0, 0, 0)
  {
    var a, b := Decimal.IntText(m), Decimal.IntText(n);
    var s := a + ",," + b;
    ComponentText(m);
    ComponentText(n);
    GapItems(a, b);
    assert s[0] == a[0];
    Decimal.IntTextShape(m);
    ParseItems(s);
    var items := [a, b];
    assert ItemValue(items, 0) == m && ItemValue(items, 1) == n;
    assert ItemValue(items, 2) == 0 && ItemValue(items, 3) == 0 && ItemValue(items, 4) == 0 && ItemValue(items, 5) == 0;
  }

  /** The items of "a,,b", for trimmed comma-free a and b. */
  lemma GapItems(a: string, b: string)
    requires a != [] && ',' !in a && Text.Trim(a) == a
    requires b != [] && ',' !in b && Text.Trim(b) == b
    ensures Items(a + ",," + b) == [a, b]
  {
    var s := a + ",," + b;
    var pieces := [a, "", b];
    GapJoin(a, b);
    Text.SplitJoin(pieces, ',');
    DropsGap(a, b);
    var split := Text.SplitNonEmpty(Some(s), ',');
    assert split == [a, b];
    var items := Items(s);
    assert |items| == 2 && items[0] == Text.Trim(a) && items[1] == Text.Trim(b);
  }

  lemma GapJoin(a: string, b: string)
    ensures Text.Join([a, "", b], ',') == a + ",," + b
  {
    assert [a, "", b][1..] == ["", b];
    assert ["", b][1..] == [b];
    assert Text.Join([b], ',') == b;
    assert Text.Join(["", b], ',') == [','] + b;
    assert Text.Join([a, "", b], ',') == a + [','] + ([','] + b);
  }

  lemma DropsGap(a: string, b: string)
    requires a != [] && b != []
    ensures Text.RemoveEmpty([a, "", b]) == [a, b]
  {
    assert [b][1..] == [];
    assert Text.RemoveEmpty([b]) == [b];
    assert ["", b][1..] == [b];
    assert Text.RemoveEmpty(["", b]) == [b];
    assert [a, "", b][1..] == ["", b];
  }

  /** The text the client documents as the default setting. */
  const DefaultText: string := "0,3,0,0,800,600"

  /** The documented default renders from, and parses to, handle 0, state 3 and an 800x600 window at the origin. */
  lemma DefaultPosition()
    ensures Render(Position(0, 3, 0, 0, 800, 600)) == DefaultText
    ensures Parse(Some(DefaultText)) == Position(0, 3, 0, 0, 800, 600)
  {
    DefaultTexts();
    DefaultJoin();
    ParseRender(Position(0, 3, 0, 0, 800, 600));
  }

  lemma DefaultTexts()
    ensures IntTexts(Components(Position(0, 3, 0, 0, 800, 600))) == ["0", "3", "0", "0", "800", "600"]
  {
    assert Decimal.NatText(8) == "8" && Decimal.NatText(6) == "6";
    assert Decimal.NatText(80) == "80" && Decimal.NatText(60) == "60";
    assert Decimal.IntText(800) == "800" && Decimal.IntText(600) == "600";
    assert Decimal.IntText(0) == "0" && Decimal.IntText(3) == "3";
  }

  lemma DefaultJoin()
    ensures Text.Join(["0", "3", "0", "0", "800", "600"], ',') == DefaultText
  {
    var texts := ["0", "3", "0", "0", "800", "600"];
    assert Text.Join(texts[4..], ',') == "800,600";
    assert Text.Join(texts[3..], ',') == "0,800,600";
    assert Text.Join(texts[2..], ',') == "0,0,800,600";
    assert Text.Join(texts[1..], ',') == "3,0,0,800,600";
  }

  /** The six `int.TryParse` calls: a component whose item does not parse keeps its 0. */
  method ParseSix(items: seq<string>) returns (p: Position)
    ensures p == Position(ItemValue(items, 0), ItemValue(items, 1), ItemValue(items, 2),
                          ItemValue(items, 3), ItemValue(items, 4), ItemValue(items, 5))
  {
    p := Origin;
    var parsed := Decimal.ParseInt32(ItemText(items, 0));
    if parsed.Some? { p := p.(handle := parsed.value); }
    parsed := Decimal.ParseInt32(ItemText(items, 1));
    if parsed.Some? { p := p.(windowState := parsed.value); }
    parsed := Decimal.ParseInt32(ItemText(items, 2));
    if parsed.Some? { p := p.(left := parsed.value); }
    parsed := Decimal.ParseInt32(ItemText(items, 3));
    if parsed.Some? { p := p.(top := parsed.value); }
    parsed := Decimal.ParseInt32(ItemText(items, 4));
    if parsed.Some? { p := p.(right := parsed.value); }
    parsed := Decimal.ParseInt32(ItemText(items, 5));
    if parsed.Some? { p := p.(bottom := parsed.value); }
  }

  /** The mutable WindowPosition object: six properties set by the constructor or by callers. */
  class WindowPosition {
    var handle: int
    var windowState: int
    var left: int
    var top: int
    var right: int
    var bottom: int

    function Snapshot(): Position
      reads this
    {
      Position(handle, windowState, left, top, right, bottom)
    }

    /** Splits the expression and parses each of the six items in turn; an item that fails keeps its 0. */
    constructor (expr: Option<string>)
      ensures Snapshot() == Parse(expr)
    {
      var p := Origin;
      if !Text.IsNullOrWhiteSpace(expr) {
        p := ParseSix(Items(expr.value));
        ParseItems(expr.value);
      }
      handle, windowState, left, top, right, bottom := p.handle, p.windowState, p.left, p.top, p.right, p.bottom;
    }

    /** ToString(): text the constructor reads back into the same six values. */
    function ToString(): (s: string)
      reads this
      ensures Snapshot().Valid() ==> Parse(Some(s)) == Snapshot()
    {
      var p := Snapshot();
      assert p.Valid() ==> Parse(Some(Render(p))) == p by {
        if p.Valid() { ParseRender(p); }
      }
      Render(p)
    }
  }
}
