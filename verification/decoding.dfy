/**
  Result decoding (`YoloWrapper.Convert`): every candidate of the container is
  scanned, those with a non-zero height or width are kept in order, their box
  is copied and their class id is resolved through the class-name table.
 */
module Decoding {
  import opened YoloTypes

  /** The native record is a real detection rather than an unused slot. */
  predicate Retained(b: Bbox)
  {
    b.h > 0 || b.w > 0
  }

  /** The dictionary key a record's class id is looked up under. */
  function ClassKey(b: Bbox): int
  {
    ToInt32(b.objId)
  }

  /** A kept record whose class id has no name in the table. */
  predicate Unresolved(b: Bbox, table: map<int, string>)
  {
    Retained(b) && ClassKey(b) !in table
  }

  /** The managed item for a kept record whose class name is `name`. */
  function ToItem(b: Bbox, name: string): (item: YoloItem)
  {
    YoloItem(ToInt32(b.x), ToInt32(b.y), ToInt32(b.w), ToInt32(b.h), b.prob, name)
  }

  /** Reference definition of the filter: the positions of the kept
      candidates, in increasing order. */
  function RetainedIndices(candidates: seq<Bbox>): (idx: seq<nat>)
    ensures |idx| <= |candidates|
    ensures forall k :: 0 <= k < |idx| ==> idx[k] < |candidates| && Retained(candidates[idx[k]])
  {
    if |candidates| == 0 then []
    else
      var n := |candidates| - 1;
      RetainedIndices(candidates[..n]) + (if Retained(candidates[n]) then [n] else [])
  }

  /** The indices are strictly increasing and name every kept candidate:
      one entry per kept candidate, none for a zero-size one, in input order. */
  lemma {:induction false} RetainedIndicesExact(candidates: seq<Bbox>)
    ensures var idx := RetainedIndices(candidates);
            && (forall k, l :: 0 <= k < l < |idx| ==> idx[k] < idx[l])
            && (forall i :: 0 <= i < |candidates| && Retained(candidates[i]) ==> i in idx)
  {
    if |candidates| > 0 {
      var n := |candidates| - 1;
      var prefix := candidates[..n];
      RetainedIndicesExact(prefix);
      var idx := RetainedIndices(candidates);
      var head := RetainedIndices(prefix);
      assert idx[..|head|] == head;
      forall i | 0 <= i < |candidates| && Retained(candidates[i])
        ensures i in idx
      {
        if i < n {
          assert prefix[i] == candidates[i];
          assert i in head;
        }
      }
    }
  }

  /** `Convert` on the container's candidate array, as the `foreach` loop
      runs it: the first kept record whose class id is missing from the
      table raises, and nothing built so far is returned. */
  function ConvertCandidates(candidates: seq<Bbox>, table: map<int, string>): (r: Result<seq<YoloItem>>)
    ensures r.Success? ==> |r.value| <= |candidates|
  {
    if |candidates| == 0 then Success([])
    else
      var n := |candidates| - 1;
      var last := candidates[n];
      match ConvertCandidates(candidates[..n], table)
      case Failure(e) => Failure(e)
      case Success(items) =>
        if !Retained(last) then Success(items)
        else if ClassKey(last) !in table then Failure(KeyNotFound(ClassKey(last)))
        else Success(items + [ToItem(last, table[ClassKey(last)])])
  }

  /** Decoding fails exactly when some kept candidate has an unnamed class
      id, and then with the id of the first such candidate; zero-size
      candidates are never looked up. */
  lemma {:induction false} ConvertFailsIff(candidates: seq<Bbox>, table: map<int, string>)
    ensures var r := ConvertCandidates(candidates, table);
            r.Failure? <==> exists i :: 0 <= i < |candidates| && Unresolved(candidates[i], table)
    ensures var r := ConvertCandidates(candidates, table);
            r.Failure? ==>
              exists j :: 0 <= j < |candidates|
                && Unresolved(candidates[j], table)
                && r.error == KeyNotFound(ClassKey(candidates[j]))
                && forall i :: 0 <= i < j ==> !Unresolved(candidates[i], table)
  {
    if |candidates| > 0 {
      var n := |candidates| - 1;
      var prefix := candidates[..n];
      ConvertFailsIff(prefix, table);
      assert forall i :: 0 <= i < n ==> prefix[i] == candidates[i];
      if ConvertCandidates(prefix, table).Success? && Unresolved(candidates[n], table) {
        assert forall i :: 0 <= i < n ==> !Unresolved(candidates[i], table);
      }
    }
  }

  /** A successful decode has exactly one item per kept candidate, in input
      order: item k carries the box of the k-th kept candidate and the name
      its class id maps to. */
  lemma {:induction false} ConvertItems(candidates: seq<Bbox>, table: map<int, string>)
    ensures var r := ConvertCandidates(candidates, table);
            r.Success? ==>
              var idx := RetainedIndices(candidates);
              && |r.value| == |idx|
              && forall k :: 0 <= k < |idx| ==>
                   && ClassKey(candidates[idx[k]]) in table
                   && r.value[k] == ToItem(candidates[idx[k]], table[ClassKey(candidates[idx[k]])])
  {
    if |candidates| > 0 {
      var n := |candidates| - 1;
      var prefix := candidates[..n];
      ConvertItems(prefix, table);
      assert forall i :: 0 <= i < n ==> prefix[i] == candidates[i];
    }
  }

  /** `Convert(container)`: a container whose candidate array was never
      filled makes the `Where` call throw; a filled one fails exactly when a
      kept candidate has an unnamed class id, and otherwise yields one item
      per kept candidate, in input order. */
  function Convert(container: Container, table: map<int, string>): (r: Result<seq<YoloItem>>)
    ensures container.Unfilled? ==> r == Failure(NullCandidates)
    ensures container.Filled? ==>
              var c := container.candidates;
              r.Failure? <==> exists i :: 0 <= i < |c| && Unresolved(c[i], table)
    ensures container.Filled? && r.Success? ==>
              var c := container.candidates;
              var idx := RetainedIndices(c);
              && |r.value| == |idx|
              && forall k :: 0 <= k < |idx| ==>
                   && ClassKey(c[idx[k]]) in table
                   && r.value[k] == ToItem(c[idx[k]], table[ClassKey(c[idx[k]])])
  {
    match container
    case Unfilled => Failure(NullCandidates)
    case Filled(candidates) =>
      ConvertFailsIff(candidates, table);
      ConvertItems(candidates, table);
      ConvertCandidates(candidates, table)
  }

  /** The class id of a zero-size candidate is never looked up: changing it
      does not change the outcome of decoding. */
  lemma {:induction false} DroppedIdsIgnored(
    candidates: seq<Bbox>, table: map<int, string>, i: nat, id: UInt32)
    requires i < |candidates| && !Retained(candidates[i])
    ensures ConvertCandidates(candidates[i := candidates[i].(objId := id)], table)
            == ConvertCandidates(candidates, table)
  {
    var n := |candidates| - 1;
    var changed := candidates[i := candidates[i].(objId := id)];
    assert Retained(changed[n]) == Retained(candidates[n]);
    if i < n {
      DroppedIdsIgnored(candidates[..n], table, i, id);
      assert changed[..n] == candidates[..n][i := candidates[i].(objId := id)];
      assert changed[n] == candidates[n];
    } else {
      assert changed[..n] == candidates[..n];
      assert !Retained(changed[n]);
    }
  }

  /** Decoding a concatenation decodes the first part, then the second:
      the items of a successful decode appear in input order. */
  lemma {:induction false} ConvertAppend(a: seq<Bbox>, b: seq<Bbox>, table: map<int, string>)
    ensures ConvertCandidates(a + b, table) ==
            match ConvertCandidates(a, table)
            case Failure(e) => Failure(e)
            case Success(first) =>
              match ConvertCandidates(b, table)
              case Failure(e) => Failure(e)
              case Success(second) => Success(first + second)
    decreases |b|
  {
    if |b| > 0 {
      var n := |b| - 1;
      assert (a + b)[..|a| + n] == a + b[..n];
      assert (a + b)[|a| + n] == b[n];
      ConvertAppend(a, b[..n], table);
      match ConvertCandidates(a, table)
      case Failure(e) =>
      case Success(first) =>
        match ConvertCandidates(b[..n], table)
        case Failure(e) =>
        case Success(second) =>
          var last := b[n];
          if Retained(last) && ClassKey(last) in table {
            assert first + second + [ToItem(last, table[ClassKey(last)])]
                == first + (second + [ToItem(last, table[ClassKey(last)])]);
          }
    } else {
      assert a + b == a;
      match ConvertCandidates(a, table)
      case Failure(e) =>
      case Success(first) =>
        assert first + [] == first;
    }
  }

  /** Worked example: with names `person`, `car`, `dog`, a car box followed
      by an empty slot decodes to exactly the car. */
  lemma CarExample(prob: Confidence, empty: Confidence)
    ensures var table := map[0 := "person", 1 := "car", 2 := "dog"];
            var car := Bbox(10, 20, 30, 40, prob, 1, 0, 0);
            var slot := Bbox(0, 0, 0, 0, empty, 0, 0, 0);
            ConvertCandidates([car, slot], table) == Success([YoloItem(10, 20, 30, 40, prob, "car")])
  {
    var table := map[0 := "person", 1 := "car", 2 := "dog"];
    var car := Bbox(10, 20, 30, 40, prob, 1, 0, 0);
    var slot := Bbox(0, 0, 0, 0, empty, 0, 0, 0);
    var both := [car, slot];
    var one := [car];
    assert both[..1] == one && both[1] == slot;
    assert one[..0] == [] && one[0] == car;
    assert ConvertCandidates(one[..0], table) == Success([]);
    assert Retained(car) && ClassKey(car) in table && table[ClassKey(car)] == "car";
    assert ConvertCandidates(one, table) == Success([] + [ToItem(car, "car")]);
    assert ToItem(car, "car") == YoloItem(10, 20, 30, 40, prob, "car");
    assert [] + [ToItem(car, "car")] == [ToItem(car, "car")];
    assert !Retained(slot);
    assert ConvertCandidates(both, table) == ConvertCandidates(one, table);
  }

  /** A class id outside a three-name table makes decoding fail, with no
      partial list. */
  lemma UnknownClassExample(prob: Confidence)
    ensures var table := map[0 := "person", 1 := "car", 2 := "dog"];
            ConvertCandidates([Bbox(1, 1, 5, 5, prob, 5, 0, 0)], table) == Failure(KeyNotFound(5))
  {
  }
}
