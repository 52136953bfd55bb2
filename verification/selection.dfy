/**
 * Toggling one node in the shot selection, as `onNodeClick` does in both
 * revisions (a set's `remove`/`add` in one, a dictionary's `delete` and
 * index assignment in the other).
 */
module Selection {

  /** The selection after a click on node `id`. */
  function Toggle(selected: set<int>, id: int): (r: set<int>)
    ensures id in r <==> id !in selected
    ensures forall x :: x != id ==> (x in r <==> x in selected)
    ensures |r| == if id in selected then |selected| - 1 else |selected| + 1
  {
    if id in selected then selected - {id} else selected + {id}
  }

  /** Clicking the same node twice gives back the selection. */
  lemma ToggleTwice(selected: set<int>, id: int)
    ensures Toggle(Toggle(selected, id), id) == selected
  {
  }
}
