/**
 * PriorityQueue of algorithms/solving/a-star.js (dijkstra.js carries an
 * identical copy): an array of {element, priority} entries kept sorted by
 * priority, and a set of the elements for `contains`.
 */
module PriorityQueues {
  import opened Geometry
  import opened StableSort

  datatype Entry<T> = Entry(element: T, priority: nat)

  /** The key of the comparator `(a, b) => a.priority - b.priority`. */
  function Priority<T>(e: Entry<T>): Cost {
    Finite(e.priority)
  }

  function Elements<T>(es: seq<Entry<T>>): set<T> {
    set e | e in es :: e.element
  }

  class PriorityQueue<T(==)> {
    var elements: seq<Entry<T>>
    var elementSet: set<T>

    /**
     * The array is sorted, and every element of the set is queued.  The set
     * can lag behind the array: dequeue deletes the element from the set even
     * when a second entry of it is still queued.
     */
    ghost predicate Valid()
      reads this
    {
      SortedBy(elements, Priority) && elementSet <= Elements(elements)
    }

    constructor ()
      ensures Valid() && elements == [] && elementSet == {}
    {
      elements := [];
      elementSet := {};
    }

    /**
     * enqueue: push the entry, add the element to the set and sort the
     * array, which leaves the stable sort of the pushed array: the new entry
     * goes after every entry of equal or smaller priority and before the
     * others (InsertByPlacement).
     */
    method Enqueue(element: T, priority: nat)
      requires Valid()
      modifies this
      ensures Valid()
      ensures IsStableSortOf(old(elements) + [Entry(element, priority)], elements, Priority)
      ensures elements == InsertBy(old(elements), Entry(element, priority), Priority)
      ensures elementSet == old(elementSet) + {element}
    {
      var pushed := elements + [Entry(element, priority)];
      elementSet := elementSet + {element};
      SortSnocIsInsert(elements, Entry(element, priority), Priority);
      InsertByIsStableSort(elements, Entry(element, priority), Priority);
      InsertByPerm(elements, Entry(element, priority), Priority);
      EnqueueMembers(InsertBy(elements, Entry(element, priority), Priority), elements, Entry(element, priority));
      elements := SortBy(pushed, Priority);
    }

    /**
     * dequeue: null when empty; otherwise the first entry, whose priority is
     * the least, leaves the array and its element leaves the set.
     */
    method Dequeue() returns (r: Option<T>)
      requires Valid()
      modifies this
      ensures Valid()
      ensures old(elements) == [] ==> r == None && elements == old(elements) && elementSet == old(elementSet)
      ensures old(elements) != [] ==>
        r == Some(old(elements)[0].element) &&
        (forall e :: e in old(elements) ==> old(elements)[0].priority <= e.priority) &&
        elements == old(elements)[1..] && elementSet == old(elementSet) - {r.value}
    {
      if IsEmpty() {
        return None;
      }
      FirstIsLeast(elements, Priority);
      var first := elements[0];
      DequeueMembers(elements);
      elements := elements[1..];
      elementSet := elementSet - {first.element};
      r := Some(first.element);
    }

    predicate Contains(element: T)
      reads this
    {
      element in elementSet
    }

    predicate IsEmpty()
      reads this
    {
      |elements| == 0
    }
  }

  /** An array holding the entries of another plus one more holds its elements plus one more. */
  lemma EnqueueMembers<T>(a: seq<Entry<T>>, b: seq<Entry<T>>, e: Entry<T>)
    requires multiset(a) == multiset(b) + multiset{e}
    ensures Elements(a) == Elements(b) + {e.element}
  {
    forall y ensures y in Elements(a) <==> y in Elements(b) + {e.element} {
      if y in Elements(a) {
        var f :| f in a && f.element == y;
        assert f in multiset(a);
      }
      if y in Elements(b) {
        var f :| f in b && f.element == y;
        assert f in multiset(b);
        assert f in multiset(a);
      }
      assert e in multiset(a);
    }
  }

  /** Shifting the first entry keeps a sorted array sorted; its other elements stay queued. */
  lemma DequeueMembers<T>(es: seq<Entry<T>>)
    requires SortedBy(es, Priority) && es != []
    ensures SortedBy(es[1..], Priority)
    ensures Elements(es) - {es[0].element} <= Elements(es[1..])
  {
    var rest := es[1..];
    forall i, j | 0 <= i < j < |rest| ensures CostLe(Priority(rest[i]), Priority(rest[j])) {
      assert rest[i] == es[i + 1] && rest[j] == es[j + 1];
    }
    forall x | x in Elements(es) - {es[0].element} ensures x in Elements(rest) {
      var e :| e in es && e.element == x;
      var k :| 0 <= k < |es| && es[k] == e;
      assert k != 0;
      assert rest[k - 1] == e;
    }
  }

  /** contains and isEmpty against the array: a contained element is queued, and an empty queue contains nothing. */
  lemma ContainsQueued<T>(q: PriorityQueue<T>, x: T)
    requires q.Valid()
    ensures q.Contains(x) ==> exists e :: e in q.elements && e.element == x
    ensures q.IsEmpty() <==> q.elements == []
    ensures q.IsEmpty() ==> !q.Contains(x)
  {
  }
}
