/** The FloorSelect widget: a list of numbered buttons, the active one marked
    with an extra class, each click asking for its own index. */
module FloorSelect {

  /** The JSX output, or the RangeError `new Array(levels)` throws for a
      length that is not an array length (negative, or 2^32 or more). */
  datatype Outcome<T> = Rendered(value: T) | RangeError

  const MaxArrayLength := 0x1_0000_0000

  const ItemClass := "floor-select__item"
  const ActiveClass := "floor-select__item_active"

  /** One `<button>`: the number it shows, its class list, and the index its
      click passes to `setActiveIndex`. */
  datatype Button = Button(text: int, classes: seq<string>, request: int)

  predicate IsActive(b: Button)
  {
    ActiveClass in b.classes
  }

  /** `new Array(levels).fill(1).map((_, index) => index + 1)`. */
  function PrepareLevels(levels: int): (r: Outcome<seq<int>>)
    ensures r.Rendered? <==> 0 <= levels < MaxArrayLength
    ensures r.Rendered? ==> |r.value| == levels
  {
    if 0 <= levels < MaxArrayLength then Rendered(seq(levels, i => i + 1)) else RangeError
  }

  /** The prepared list is 1, 2, ..., levels: it starts at 1, each entry is
      one more than the one before, and it holds exactly the numbers 1..levels. */
  lemma PreparedIsOneToLevels(levels: int)
    requires 0 <= levels < MaxArrayLength
    ensures var ls := PrepareLevels(levels).value;
      && (levels > 0 ==> ls[0] == 1)
      && (forall i :: 0 < i < |ls| ==> ls[i] == ls[i - 1] + 1)
      && (forall x :: x in ls <==> 1 <= x <= levels)
  {
    var ls := PrepareLevels(levels).value;
    forall x | 1 <= x <= levels
      ensures x in ls
    {
      assert ls[x - 1] == x;
    }
  }

  /** `classnames(item, { [active]: on })`. */
  function Classes(on: bool): (cs: seq<string>)
    ensures ItemClass in cs
    ensures ActiveClass in cs <==> on
  {
    [ItemClass] + (if on then [ActiveClass] else [])
  }

  /** `levelsPrepared.map((level, index) => <button ...>{ level }</button>)`. */
  function Buttons(prepared: seq<int>, activeIndex: int): (bs: seq<Button>)
    ensures |bs| == |prepared|
    ensures forall i :: 0 <= i < |bs| ==> bs[i].text == prepared[i] && bs[i].request == i
    ensures forall i :: 0 <= i < |bs| ==> (IsActive(bs[i]) <==> i == activeIndex)
  {
    var bs := seq(|prepared|, i requires 0 <= i < |prepared| => Button(prepared[i], Classes(i == activeIndex), i));
    assert forall i :: 0 <= i < |bs| ==> bs[i].classes == Classes(i == activeIndex);
    bs
  }

  /** The whole widget for `levels` floors with `activeIndex` selected. */
  function Render(levels: int, activeIndex: int): (r: Outcome<seq<Button>>)
    ensures r.Rendered? <==> 0 <= levels < MaxArrayLength
    ensures r.Rendered? ==> |r.value| == levels
    ensures r.Rendered? ==> forall i :: 0 <= i < levels ==> r.value[i].text == i + 1
    ensures r.Rendered? ==> forall i :: 0 <= i < levels ==> 0 <= r.value[i].request < levels
  {
    match PrepareLevels(levels)
    case Rendered(ls) => Rendered(Buttons(ls, activeIndex))
    case RangeError => RangeError
  }

  function ActivePositions(bs: seq<Button>): set<int>
  {
    set i | 0 <= i < |bs| && IsActive(bs[i])
  }

  /** The active class is on the button at `activeIndex` and nowhere else:
      exactly one active button when `activeIndex` names a floor, none
      otherwise. */
  lemma ActiveButtonIsSelected(levels: int, activeIndex: int)
    requires 0 <= levels < MaxArrayLength
    ensures ActivePositions(Render(levels, activeIndex).value)
         == if 0 <= activeIndex < levels then {activeIndex} else {}
    ensures |ActivePositions(Render(levels, activeIndex).value)| <= 1
  {
  }
}
