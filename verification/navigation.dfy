/** Navigating parsed tables: in a tree of the default `table`/`tr`/`td`
    shape, `at(i)`, `at(i, j)` and `at(i, j, k)` are defined for every index
    triple and always land on a table, a row and a cell, and `leaf()` is the
    first cell of the first row of the first table. */
module TableNavigation {
  import opened ParseTree
  import opened Parser
  import opened ParseShape

  /** Every node along the chain of a shaped node is shaped at the same
      level. */
  lemma {:induction false} SiblingsShaped(n: Node, tags: seq<string>, level: nat)
    requires Shaped(n, tags, level)
    ensures forall k :: 0 <= k < |Siblings(n)| ==> Shaped(Siblings(n)[k], tags, level)
    decreases n
  {
    if n.cont.More? {
      var m := n.cont.more;
      SiblingsShaped(m, tags, level);
      assert Siblings(n) == [n] + Siblings(m);
    }
  }

  /** `at(i)` of a shaped node is shaped at the same level. */
  lemma AtShaped(n: Node, tags: seq<string>, level: nat, i: int)
    requires Shaped(n, tags, level)
    ensures Shaped(At(n, i), tags, level)
  {
    SiblingsShaped(n, tags, level);
  }

  /** In a tree of the default shape every index triple reaches a table that
      has rows, a row that has cells, and a cell that holds text. */
  lemma TableCells(n: Node, i: int, j: int, k: int)
    requires Shaped(n, DefaultTags, 0)
    ensures At(n, i).content.Parts?
    ensures At2(n, i, j).content.Parts?
    ensures At3(n, i, j, k).content.Body?
    ensures Shaped(At3(n, i, j, k), DefaultTags, 2)
  {
    AtShaped(n, DefaultTags, 0, i);
    AtShaped(At(n, i).content.parts, DefaultTags, 1, j);
    AtShaped(At2(n, i, j).content.parts, DefaultTags, 2, k);
  }

  /** `leaf()` of a default-shaped tree is `at(0, 0, 0)`. */
  lemma LeafIsFirstCell(n: Node)
    requires Shaped(n, DefaultTags, 0)
    ensures At(n, 0).content.Parts? && At2(n, 0, 0).content.Parts?
    ensures Leaf(n) == At3(n, 0, 0, 0)
  {
    TableCells(n, 0, 0, 0);
    var row := n.content.parts;
    assert Shaped(row, DefaultTags, 1);
    assert Shaped(row.content.parts, DefaultTags, 2);
  }

  /** Whatever `create` with the default tags builds can be indexed by any
      table, row and column. */
  lemma CreatedTablesIndex(text: string, i: int, j: int, k: int)
    requires Create(text, []).Ok?
    ensures var n := Create(text, []).value;
            && At(n, i).content.Parts?
            && At2(n, i, j).content.Parts?
            && At3(n, i, j, k).content.Body?
  {
    ParseShaped(text, DefaultTags, 0, 0);
    TableCells(Create(text, []).value, i, j, k);
  }
}
