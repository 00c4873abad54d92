/** The alumnos screen of PR101 (MainActivity): a plain list of names shown
    in a multiple-choice list view, whose checked rows can be removed and
    whose whole content can be handed to the export service. The list view's
    check states (a SparseBooleanArray kept by the framework) are the entries
    of `checkStates`, ordered by position as that array keeps its keys. */
module AlumnosActivity {
  import opened Texts

  /** One key/value pair of the checked-positions array. */
  datatype CheckEntry = CheckEntry(position: nat, checked: bool)

  /** The items of the contextual menu. */
  datatype ContextualItem = MnuEliminar | OtherItem(itemId: int)

  /** Keys strictly increasing, as a SparseBooleanArray keeps them. */
  predicate KeysIncreasing(cs: seq<CheckEntry>)
  {
    forall i, j :: 0 <= i < j < |cs| ==> cs[i].position < cs[j].position
  }

  /** Every checked position is a row of a list of n items. */
  predicate CheckedInRange(cs: seq<CheckEntry>, n: nat)
  {
    forall i :: 0 <= i < |cs| && cs[i].checked ==> cs[i].position < n
  }

  /** The positions whose flag is true among the first i entries, in key order. */
  function CheckedUpTo(cs: seq<CheckEntry>, i: nat): seq<nat>
    requires i <= |cs|
  {
    if i == 0 then []
    else CheckedUpTo(cs, i - 1) + (if cs[i - 1].checked then [cs[i - 1].position] else [])
  }

  /** The positions whose flag is true, in key order. */
  function CheckedPositions(cs: seq<CheckEntry>): seq<nat>
  {
    CheckedUpTo(cs, |cs|)
  }

  lemma {:induction false} CheckedUpToMembers(cs: seq<CheckEntry>, i: nat)
    requires i <= |cs|
    ensures forall p :: p in CheckedUpTo(cs, i) <==>
      exists k :: 0 <= k < i && cs[k].checked && cs[k].position == p
  {
    if i > 0 {
      CheckedUpToMembers(cs, i - 1);
      forall p | p in CheckedUpTo(cs, i)
        ensures exists k :: 0 <= k < i && cs[k].checked && cs[k].position == p
      {
        if p !in CheckedUpTo(cs, i - 1) {
          assert cs[i - 1].checked && cs[i - 1].position == p;
        }
      }
      forall p | exists k :: 0 <= k < i && cs[k].checked && cs[k].position == p
        ensures p in CheckedUpTo(cs, i)
      {
        var k :| 0 <= k < i && cs[k].checked && cs[k].position == p;
        if k < i - 1 {
          assert p in CheckedUpTo(cs, i - 1);
        }
      }
    }
  }

  /** A position is listed exactly when some entry checks it. */
  lemma CheckedPositionsMembers(cs: seq<CheckEntry>)
    ensures forall p :: p in CheckedPositions(cs) <==>
      exists i :: 0 <= i < |cs| && cs[i].checked && cs[i].position == p
  {
    CheckedUpToMembers(cs, |cs|);
  }

  lemma {:induction false} CheckedUpToIncreasing(cs: seq<CheckEntry>, i: nat)
    requires i <= |cs| && KeysIncreasing(cs)
    ensures StrictlyIncreasing(CheckedUpTo(cs, i))
  {
    if i > 0 {
      CheckedUpToIncreasing(cs, i - 1);
      CheckedUpToMembers(cs, i - 1);
      var init := CheckedUpTo(cs, i - 1);
      forall k | 0 <= k < |init|
        ensures init[k] < cs[i - 1].position
      {
        assert init[k] in init;
      }
    }
  }

  /** Listed positions are increasing when the keys are. */
  lemma CheckedPositionsIncreasing(cs: seq<CheckEntry>)
    requires KeysIncreasing(cs)
    ensures StrictlyIncreasing(CheckedPositions(cs))
  {
    CheckedUpToIncreasing(cs, |cs|);
  }

  /** Listed positions are rows of the list when the checked ones are. */
  lemma {:induction false} CheckedUpToBounded(cs: seq<CheckEntry>, i: nat, n: nat)
    requires i <= |cs| && CheckedInRange(cs, n)
    ensures AllBelow(CheckedUpTo(cs, i), n)
  {
    if i > 0 {
      CheckedUpToBounded(cs, i - 1, n);
    }
  }

  /** With no flag set no position is listed. */
  lemma {:induction false} CheckedUpToNone(cs: seq<CheckEntry>, i: nat)
    requires i <= |cs|
    requires forall k :: 0 <= k < |cs| ==> !cs[k].checked
    ensures CheckedUpTo(cs, i) == []
  {
    if i > 0 {
      CheckedUpToNone(cs, i - 1);
    }
  }

  /** Every position is a row of a list of n items. */
  predicate AllBelow(ps: seq<nat>, n: nat)
  {
    forall k :: 0 <= k < |ps| ==> ps[k] < n
  }

  predicate StrictlyIncreasing(ps: seq<nat>)
  {
    forall i, j :: 0 <= i < j < |ps| ==> ps[i] < ps[j]
  }

  /** The same keys with every flag false. */
  function Unchecked(cs: seq<CheckEntry>): (r: seq<CheckEntry>)
    ensures |r| == |cs|
  {
    seq(|cs|, k requires 0 <= k < |cs| => CheckEntry(cs[k].position, false))
  }

  /** Unchecking keeps the keys in order and leaves no position listed. */
  lemma UncheckedKeys(cs: seq<CheckEntry>)
    ensures forall k :: 0 <= k < |cs| ==> Unchecked(cs)[k] == CheckEntry(cs[k].position, false)
    ensures KeysIncreasing(cs) ==> KeysIncreasing(Unchecked(cs))
    ensures CheckedPositions(Unchecked(cs)) == []
  {
    CheckedUpToNone(Unchecked(cs), |cs|);
  }

  /** The items at the given positions, in that order. */
  function ItemsAt(items: seq<string>, ps: seq<nat>): (r: seq<string>)
    requires AllBelow(ps, |items|)
    ensures |r| == |ps|
  {
    if ps == [] then [] else ItemsAt(items, ps[..|ps| - 1]) + [items[ps[|ps| - 1]]]
  }

  /** The k-th item picked is the item at the k-th position. */
  lemma {:induction false} ItemsAtIndex(items: seq<string>, ps: seq<nat>)
    requires AllBelow(ps, |items|)
    ensures forall k :: 0 <= k < |ps| ==> ItemsAt(items, ps)[k] == items[ps[k]]
  {
    if ps != [] {
      ItemsAtIndex(items, ps[..|ps| - 1]);
    }
  }

  lemma ItemsAtStep(items: seq<string>, ps: seq<nat>, p: nat)
    requires AllBelow(ps, |items|)
    requires p < |items|
    ensures ItemsAt(items, ps + [p]) == ItemsAt(items, ps) + [items[p]]
  {
    assert (ps + [p])[..|ps|] == ps;
  }

  /** Picking at strictly increasing positions takes each item at most once:
      the result is a sub-multiset of the list. */
  lemma {:induction false} ItemsAtSubMultiset(items: seq<string>, ps: seq<nat>)
    requires AllBelow(ps, |items|)
    requires StrictlyIncreasing(ps)
    ensures multiset(ItemsAt(items, ps)) <= multiset(items)
    decreases |items|
  {
    if items != [] {
      var n := |items| - 1;
      var front := items[..n];
      assert items == front + [items[n]];
      if ps != [] && ps[|ps| - 1] == n {
        var init := ps[..|ps| - 1];
        assert forall k :: 0 <= k < |init| ==> init[k] < ps[|ps| - 1];
        ItemsAtPrefix(items, front, init);
        ItemsAtSubMultiset(front, init);
        assert ItemsAt(items, ps) == ItemsAt(front, init) + [items[n]];
      } else {
        assert forall k :: 0 <= k < |ps| ==> ps[k] < n by {
          forall k | 0 <= k < |ps|
            ensures ps[k] < n
          {
            if k < |ps| - 1 {
              assert ps[k] < ps[|ps| - 1];
            }
          }
        }
        ItemsAtPrefix(items, front, ps);
        ItemsAtSubMultiset(front, ps);
      }
    }
  }

  /** Positions inside a prefix pick the same items from the prefix. */
  lemma ItemsAtPrefix(items: seq<string>, front: seq<string>, ps: seq<nat>)
    requires front <= items
    requires AllBelow(ps, |front|)
    ensures ItemsAt(items, ps) == ItemsAt(front, ps)
  {
  }

  /** ArrayAdapter.remove: the first occurrence of x is removed, if there is one. */
  function RemoveFirst(s: seq<string>, x: string): seq<string>
  {
    if s == [] then []
    else if s[0] == x then s[1..]
    else [s[0]] + RemoveFirst(s[1..], x)
  }

  /** RemoveFirst takes out one x when there is one, and nothing otherwise. */
  lemma {:induction false} RemoveFirstSpec(s: seq<string>, x: string)
    ensures x in s ==> |RemoveFirst(s, x)| == |s| - 1 && multiset(RemoveFirst(s, x)) == multiset(s) - multiset{x}
    ensures x !in s ==> RemoveFirst(s, x) == s
  {
    if s != [] {
      assert s == [s[0]] + s[1..];
      if s[0] != x {
        RemoveFirstSpec(s[1..], x);
      }
    }
  }

  /** One RemoveFirst per element, in the order of elems. */
  function RemoveEach(s: seq<string>, elems: seq<string>): seq<string>
  {
    if elems == [] then s
    else RemoveFirst(RemoveEach(s, elems[..|elems| - 1]), elems[|elems| - 1])
  }

  /** Removing elements that the list holds (with multiplicity) removes one
      item per element and takes exactly those out. */
  lemma {:induction false} RemoveEachCount(s: seq<string>, elems: seq<string>)
    requires multiset(elems) <= multiset(s)
    ensures |RemoveEach(s, elems)| == |s| - |elems|
    ensures multiset(RemoveEach(s, elems)) == multiset(s) - multiset(elems)
  {
    if elems != [] {
      var init := elems[..|elems| - 1];
      var x := elems[|elems| - 1];
      assert elems == init + [x];
      assert multiset(elems) == multiset(init) + multiset{x};
      RemoveEachCount(s, init);
      RemoveFirstSpec(RemoveEach(s, init), x);
      assert x in multiset(s) - multiset(init);
      assert x in RemoveEach(s, init);
    }
  }

  /** The checked rows, removed one name at a time, shrink the list by the
      number of checked rows and take out exactly their names. */
  lemma RemoveCheckedCount(items: seq<string>, cs: seq<CheckEntry>)
    requires KeysIncreasing(cs) && CheckedInRange(cs, |items|)
    ensures AllBelow(CheckedPositions(cs), |items|)
    ensures |RemoveEach(items, ItemsAt(items, CheckedPositions(cs)))| == |items| - |CheckedPositions(cs)|
    ensures multiset(RemoveEach(items, ItemsAt(items, CheckedPositions(cs))))
         == multiset(items) - multiset(ItemsAt(items, CheckedPositions(cs)))
  {
    CheckedUpToBounded(cs, |cs|, |items|);
    CheckedPositionsIncreasing(cs);
    ItemsAtSubMultiset(items, CheckedPositions(cs));
    RemoveEachCount(items, ItemsAt(items, CheckedPositions(cs)));
  }

  /** The contextual title: "<checked> <de> <count>". */
  function CheckedTitle(checkedCount: nat, de: string, count: nat): string
  {
    NatToString(checkedCount) + Spaced(de) + NatToString(count)
  }

  /** The word between two spaces. */
  function Spaced(de: string): string
  {
    " " + de + " "
  }

  /** For a fixed word `de`, the title tells both counts apart. */
  lemma CheckedTitleInjective(c1: nat, n1: nat, c2: nat, n2: nat, de: string)
    requires CheckedTitle(c1, de, n1) == CheckedTitle(c2, de, n2)
    ensures c1 == c2 && n1 == n2
  {
    var sep := Spaced(de);
    var rest1, rest2 := sep + NatToString(n1), sep + NatToString(n2);
    assert rest1[0] == ' ' && rest2[0] == ' ';
    assert NatToString(c1) + rest1 == CheckedTitle(c1, de, n1);
    assert NatToString(c2) + rest2 == CheckedTitle(c2, de, n2);
    LeadingCountUnique(c1, rest1, c2, rest2);
    CancelPrefix(sep, NatToString(n1), NatToString(n2));
    NatToStringInjective(n1, n2);
  }

  class MainActivity {
    /** The names mAdaptador holds. */
    var items: seq<string>
    /** lstAlumnos.getCheckedItemPositions(). */
    var checkStates: seq<CheckEntry>
    /** Whether btnExportar is enabled. */
    var exportEnabled: bool
    /** invalidateOptionsMenu calls made. */
    var menuInvalidations: nat
    /** The title last given to the contextual action bar. */
    var title: string
    /** The string resource R.string.de. */
    const de: string

    ghost predicate Valid()
      reads this
    {
      KeysIncreasing(checkStates)
    }

    /** The screen after initVistas: the names of the string-array resource,
        nothing checked. */
    constructor (datos: seq<string>, deText: string)
      ensures Valid() && items == datos && checkStates == [] && de == deText
      ensures exportEnabled && menuInvalidations == 0
    {
      items := datos;
      checkStates := [];
      exportEnabled := true;
      menuInvalidations := 0;
      title := "";
      de := deText;
    }

    /** getElementosSeleccionados: the names at the checked positions in key
        order; with `uncheck` each of those positions is unchecked on the way
        (setItemChecked(position, false) keeps its key with a false flag). */
    method GetElementosSeleccionados(uncheck: bool) returns (datos: seq<string>)
      requires Valid() && CheckedInRange(checkStates, |items|)
      modifies this
      ensures Valid()
      ensures AllBelow(CheckedPositions(old(checkStates)), |items|)
      ensures datos == ItemsAt(items, CheckedPositions(old(checkStates)))
      ensures checkStates == if uncheck then Unchecked(old(checkStates)) else old(checkStates)
      ensures items == old(items) && exportEnabled == old(exportEnabled)
      ensures menuInvalidations == old(menuInvalidations) && title == old(title)
    {
      var lista := items;
      var cs := checkStates;
      var selec := checkStates;
      datos := [];
      var i := 0;
      while i < |selec|
        invariant 0 <= i <= |cs| && |selec| == |cs|
        invariant items == lista && checkStates == cs && exportEnabled == old(exportEnabled)
        invariant menuInvalidations == old(menuInvalidations) && title == old(title)
        invariant AllBelow(CheckedUpTo(cs, i), |lista|)
        invariant datos == ItemsAt(lista, CheckedUpTo(cs, i))
        invariant forall k :: 0 <= k < |cs| ==>
          selec[k] == if k < i && uncheck then CheckEntry(cs[k].position, false) else cs[k]
      {
        CheckedUpToBounded(cs, i + 1, |lista|);
        assert selec[i] == cs[i];
        if selec[i].checked {
          var position := selec[i].position;
          if uncheck {
            selec := selec[i := CheckEntry(position, false)];
          }
          ItemsAtStep(lista, CheckedUpTo(cs, i), position);
          datos := datos + [lista[position]];
        } else {
          assert CheckedUpTo(cs, i + 1) == CheckedUpTo(cs, i);
        }
        i := i + 1;
      }
      UncheckedKeys(cs);
      assert selec == if uncheck then Unchecked(cs) else cs;
      checkStates := selec;
    }

    /** eliminarAlumnos: one ArrayAdapter.remove per element given; the
        options menu is invalidated when the list has become empty. */
    method EliminarAlumnos(elems: seq<string>)
      requires Valid()
      modifies this
      ensures Valid()
      ensures items == RemoveEach(old(items), elems)
      ensures menuInvalidations == old(menuInvalidations) + (if |items| <= 0 then 1 else 0)
      ensures checkStates == old(checkStates) && exportEnabled == old(exportEnabled) && title == old(title)
    {
      ghost var original := items;
      var i := 0;
      while i < |elems|
        invariant 0 <= i <= |elems|
        invariant items == RemoveEach(original, elems[..i])
        invariant checkStates == old(checkStates) && exportEnabled == old(exportEnabled)
        invariant menuInvalidations == old(menuInvalidations) && title == old(title)
      {
        assert elems[..i + 1][..i] == elems[..i];
        items := RemoveFirst(items, elems[i]);
        i := i + 1;
      }
      assert elems[..|elems|] == elems;
      if |items| <= 0 {
        menuInvalidations := menuInvalidations + 1;
      }
    }

    /** exportar: a fresh array holding the list in order, for the export
        service; nothing when the list is empty. */
    method Exportar() returns (alumnos: array?<string>)
      ensures (alumnos == null) <==> |items| == 0
      ensures alumnos != null ==> fresh(alumnos) && alumnos[..] == items
    {
      var numAlumnos := |items|;
      alumnos := null;
      if numAlumnos > 0 {
        alumnos := new string[numAlumnos];
        for i := 0 to numAlumnos
          invariant forall k :: 0 <= k < i ==> alumnos[k] == items[k]
        {
          alumnos[i] := items[i];
        }
      }
    }

    /** onActionItemClicked: the delete item removes the checked names,
        unchecking them, and enables export exactly when names remain. */
    method OnActionItemClicked(item: ContextualItem) returns (handled: bool)
      requires Valid() && CheckedInRange(checkStates, |items|)
      modifies this
      ensures Valid()
      ensures handled <==> item == MnuEliminar
      ensures item == MnuEliminar ==>
        (&& AllBelow(CheckedPositions(old(checkStates)), |old(items)|)
         && items == RemoveEach(old(items), ItemsAt(old(items), CheckedPositions(old(checkStates))))
         && |items| == |old(items)| - |CheckedPositions(old(checkStates))|
         && CheckedPositions(checkStates) == []
         && exportEnabled == (|items| > 0)
         && menuInvalidations == old(menuInvalidations) + (if |items| == 0 then 1 else 0))
      ensures item != MnuEliminar ==>
        (&& items == old(items) && checkStates == old(checkStates) && exportEnabled == old(exportEnabled)
         && menuInvalidations == old(menuInvalidations))
      ensures unchanged(`title)
    {
      match item {
        case MnuEliminar =>
          ghost var lista, cs := items, checkStates;
          assert && AllBelow(CheckedPositions(cs), |lista|)
                 && |RemoveEach(lista, ItemsAt(lista, CheckedPositions(cs)))| == |lista| - |CheckedPositions(cs)| by {
            RemoveCheckedCount(lista, cs);
          }
          assert CheckedPositions(Unchecked(cs)) == [] by {
            UncheckedKeys(cs);
          }
          var datos := GetElementosSeleccionados(true);
          EliminarAlumnos(datos);
          exportEnabled := |items| > 0;
          handled := true;
        case OtherItem(_) =>
          handled := false;
      }
    }

    /** onItemCheckedStateChanged: the title shows the checked count, the
        word `de` and the list's length. */
    method OnItemCheckedStateChanged()
      requires Valid()
      modifies this
      ensures Valid()
      ensures title == CheckedTitle(|CheckedPositions(checkStates)|, de, |items|)
      ensures items == old(items) && checkStates == old(checkStates) && exportEnabled == old(exportEnabled)
      ensures menuInvalidations == old(menuInvalidations)
    {
      title := CheckedTitle(|CheckedPositions(checkStates)|, de, |items|);
    }
  }
}
