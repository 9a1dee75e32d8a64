/** ReversedListView: a read-only java.util.List that shows another list back to front by
    mirroring indices. Wrapping a view unwraps it instead, so views never nest. */
module ReversedListView {
  import opened Wrappers

  /** A Java list as this model needs it: a plain list of elements, or a view with its two final
      fields, the underlying `list` and the `reversed` flag. */
  datatype JList<T> = Plain(items: seq<T>) | View(list: JList<T>, reversed: bool)

  /** A view's underlying list is never itself a view. */
  ghost predicate NoNesting<T>(l: JList<T>) {
    l.View? ==> l.list.Plain?
  }

  /** List.size(); a view reports its underlying list's size. */
  function Size<T>(l: JList<T>): nat {
    match l
    case Plain(items) => |items|
    case View(inner, _) => Size(inner)
  }

  /** List.get(index); None is the IndexOutOfBoundsException of the underlying list. A reversed
      view asks its list for index size() - 1 - index. */
  function Get<T>(l: JList<T>, index: int): (r: Option<T>)
    ensures r.Some? <==> 0 <= index < Size(l)
  {
    match l
    case Plain(items) => if 0 <= index < |items| then Some(items[index]) else None
    case View(inner, reversed) => if reversed then Get(inner, Size(inner) - 1 - index) else Get(inner, index)
  }

  /** The constructor ReversedListView(list): a view over a list is a reversed view of it; a view
      over a view shares that view's list and has its flag negated. */
  function MakeView<T>(l: JList<T>): JList<T> {
    match l
    case View(inner, reversed) => View(inner, !reversed)
    case Plain(_) => View(l, true)
  }

  /** The elements of a list, in index order. */
  function Elements<T>(l: JList<T>): (r: seq<T>)
    ensures |r| == Size(l)
  {
    seq(Size(l), i requires 0 <= i < Size(l) => Get(l, i).value)
  }

  /** A view has the size of the list it was built from. */
  lemma MakeViewSize<T>(l: JList<T>)
    ensures Size(MakeView(l)) == Size(l)
  {
  }

  /** A view shows the list it was built from back to front: index i is that list's index
      size - 1 - i, and indices outside [0, size) stay outside. This holds for a plain list and,
      through the negated flag, for a view built from a view. */
  lemma {:induction false} MakeViewGet<T>(l: JList<T>, i: int)
    ensures Get(MakeView(l), i) == Get(l, Size(l) - 1 - i)
  {
    match l
    case Plain(_) =>
    case View(inner, reversed) =>
      assert Size(inner) - 1 - (Size(inner) - 1 - i) == i;
  }

  /** Reversing twice gives back the original list, element by element. */
  lemma DoubleReversal<T>(l: JList<T>, i: int)
    ensures Size(MakeView(MakeView(l))) == Size(l)
    ensures Get(MakeView(MakeView(l)), i) == Get(l, i)
  {
    MakeViewGet(MakeView(l), i);
    MakeViewGet(l, Size(l) - 1 - i);
  }

  /** Views never nest: the constructor keeps NoNesting, the flag is true over a plain list and
      the negation of the inner flag over a view. */
  lemma MakeViewNoNesting<T>(l: JList<T>)
    requires NoNesting(l)
    ensures NoNesting(MakeView(l))
    ensures MakeView(l).View?
    ensures MakeView(l).list == (if l.View? then l.list else l)
    ensures MakeView(l).reversed == (l.Plain? || !l.reversed)
  {
  }

  /** The elements of a view over a plain list are that list reversed. */
  lemma ReversedElements<T>(s: seq<T>)
    ensures |Elements(MakeView(Plain(s)))| == |s|
    ensures forall i :: 0 <= i < |s| ==> Elements(MakeView(Plain(s)))[i] == s[|s| - 1 - i]
  {
    MakeViewSize(Plain(s));
    forall i | 0 <= i < |s|
      ensures Elements(MakeView(Plain(s)))[i] == s[|s| - 1 - i]
    {
      MakeViewGet(Plain(s), i);
    }
  }
}
