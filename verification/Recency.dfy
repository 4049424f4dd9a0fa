/** The recency list of the memory cache: list cells, the iterator map into them, and the order of last
    use. */
module Recency {
  import opened Sequences

  type Key = string

  /** A list cell; its identity is what an iterator refers to. */
  datatype Cell = Cell(id: int, key: Key)

  function Keys(cells: seq<Cell>): seq<Key> {
    if cells == [] then [] else Keys(cells[..|cells| - 1]) + [cells[|cells| - 1].key]
  }

  lemma {:induction false} KeysAt(cells: seq<Cell>)
    ensures |Keys(cells)| == |cells|
    ensures forall i | 0 <= i < |cells| :: Keys(cells)[i] == cells[i].key
  {
    if cells == [] {
    } else {
      KeysAt(cells[..|cells| - 1]);
    }
  }

  /** Erasing the cell an iterator refers to. */
  function Erase(cells: seq<Cell>, id: int): seq<Cell> {
    if cells == [] then []
    else if cells[|cells| - 1].id == id then cells[..|cells| - 1]
    else Erase(cells[..|cells| - 1], id) + [cells[|cells| - 1]]
  }

  // ---- cells and iterators

  /** Cells have different identities and keys, and the iterator of each listed key refers to its own
      cell. Cell identities stay below the next one to be allocated. */
  predicate Linked(cells: seq<Cell>, iterators: map<Key, int>, next: int) {
    && (forall i, j | 0 <= i < j < |cells| :: cells[i].id != cells[j].id && cells[i].key != cells[j].key)
    && (forall i | 0 <= i < |cells| :: cells[i].id < next)
    && (forall i | 0 <= i < |cells| :: cells[i].key in iterators && iterators[cells[i].key] == cells[i].id)
    && (forall k | k in iterators :: HasKey(cells, k))
  }

  predicate HasKey(cells: seq<Cell>, k: Key) {
    exists i | 0 <= i < |cells| :: cells[i].key == k
  }

  lemma LinkedKeys(cells: seq<Cell>, iterators: map<Key, int>, next: int)
    requires Linked(cells, iterators, next)
    ensures Distinct(Keys(cells))
    ensures forall k :: k in Keys(cells) <==> k in iterators
  {
    KeysAt(cells);
    forall k | k in iterators
      ensures k in Keys(cells)
    {
      assert HasKey(cells, k);
      var i :| 0 <= i < |cells| && cells[i].key == k;
      assert Keys(cells)[i] == k;
    }
  }

  /** The list without the cell at one position. */
  function DropAt(cells: seq<Cell>, at: nat): seq<Cell>
    requires at < |cells|
  {
    cells[..at] + cells[at + 1..]
  }

  lemma DropAtHasKey(cells: seq<Cell>, at: nat, k: Key)
    requires at < |cells| && HasKey(cells, k) && k != cells[at].key
    ensures HasKey(DropAt(cells, at), k)
  {
    var j :| 0 <= j < |cells| && cells[j].key == k;
    assert DropAt(cells, at)[if j < at then j else j - 1].key == k;
  }

  lemma DropAtLinked(cells: seq<Cell>, iterators: map<Key, int>, next: int, at: nat)
    requires Linked(cells, iterators, next) && at < |cells|
    ensures Linked(DropAt(cells, at), iterators - {cells[at].key}, next)
  {
    var less := DropAt(cells, at);
    assert forall i | 0 <= i < |less| :: less[i] == cells[if i < at then i else i + 1];
    forall k | k in iterators - {cells[at].key}
      ensures HasKey(less, k)
    {
      DropAtHasKey(cells, at, k);
    }
  }

  /** Erasing through the iterator of a key takes out that key's cell and no other. */
  lemma EraseIsWithout(cells: seq<Cell>, iterators: map<Key, int>, next: int, k: Key)
    requires Linked(cells, iterators, next) && k in iterators
    ensures Keys(Erase(cells, iterators[k])) == Without(Keys(cells), k)
    ensures Linked(Erase(cells, iterators[k]), iterators - {k}, next)
  {
    assert HasKey(cells, k);
    var at :| 0 <= at < |cells| && cells[at].key == k;
    EraseAt(cells, at);
    DropAtLinked(cells, iterators, next, at);
    DropAtKeys(cells, at);
  }

  lemma DropAtKeys(cells: seq<Cell>, at: nat)
    requires at < |cells| && forall i, j | 0 <= i < j < |cells| :: cells[i].key != cells[j].key
    ensures Keys(DropAt(cells, at)) == Without(Keys(cells), cells[at].key)
  {
    KeysAt(cells);
    KeysSplit(cells, at);
    WithoutMiddle(Keys(cells[..at]), cells[at].key, Keys(cells[at + 1..]));
    KeysAppend(cells[..at], cells[at + 1..]);
  }

  lemma WithoutMiddle(a: seq<Key>, k: Key, b: seq<Key>)
    requires Distinct(a + [k] + b)
    ensures Without(a + [k] + b, k) == a + b
  {
    var ks := a + [k] + b;
    WithoutAt(ks, |a|);
    assert ks[..|a|] == a && ks[|a| + 1..] == b && ks[|a|] == k;
  }

  lemma {:induction false} KeysAppend(a: seq<Cell>, b: seq<Cell>)
    ensures Keys(a + b) == Keys(a) + Keys(b)
  {
    if b == [] {
      assert a + b == a;
    } else {
      assert (a + b)[..|a + b| - 1] == a + b[..|b| - 1];
      KeysAppend(a, b[..|b| - 1]);
    }
  }

  lemma KeysSplit(cells: seq<Cell>, at: nat)
    requires at < |cells|
    ensures Keys(cells) == Keys(cells[..at]) + [cells[at].key] + Keys(cells[at + 1..])
    ensures |Keys(cells[..at])| == at
  {
    KeysAt(cells[..at]);
    KeysAppend(cells[..at], [cells[at]]);
    KeysAppend(cells[..at] + [cells[at]], cells[at + 1..]);
    assert cells == cells[..at] + [cells[at]] + cells[at + 1..];
    assert Keys([cells[at]]) == [cells[at].key];
  }

  lemma {:induction false} EraseAt(cells: seq<Cell>, at: nat)
    requires at < |cells| && forall j | 0 <= j < |cells| && j != at :: cells[j].id != cells[at].id
    ensures Erase(cells, cells[at].id) == DropAt(cells, at)
  {
    var n := |cells| - 1;
    if at < n {
      EraseAt(cells[..n], at);
      assert cells[..n][..at] == cells[..at] && cells[..n][at + 1..] + [cells[n]] == cells[at + 1..];
    } else {
      assert cells[at + 1..] == [];
    }
  }

  lemma {:induction false} WithoutAt(ks: seq<Key>, at: nat)
    requires Distinct(ks) && at < |ks|
    ensures Without(ks, ks[at]) == ks[..at] + ks[at + 1..]
  {
    var n := |ks| - 1;
    if at < n {
      WithoutAt(ks[..n], at);
      assert ks[..n][..at] == ks[..at] && ks[..n][at + 1..] + [ks[n]] == ks[at + 1..];
    } else {
      assert ks[at] !in ks[..n];
      WithoutNone(ks[..n], ks[at]);
    }
  }

  /** A new cell in front. */
  lemma PushFront(cells: seq<Cell>, iterators: map<Key, int>, next: int, k: Key)
    requires Linked(cells, iterators, next) && k !in iterators
    ensures Linked([Cell(next, k)] + cells, iterators[k := next], next + 1)
    ensures Keys([Cell(next, k)] + cells) == [k] + Keys(cells)
  {
    var longer := [Cell(next, k)] + cells;
    KeysAppend([Cell(next, k)], cells);
    assert Keys([Cell(next, k)]) == [k];
    forall c | c in iterators[k := next]
      ensures HasKey(longer, c)
    {
      if c == k {
        assert longer[0].key == k;
      } else {
        assert HasKey(cells, c);
        var j :| 0 <= j < |cells| && cells[j].key == c;
        assert longer[j + 1].key == c;
      }
    }
  }

  /** Dropping the last cell. */
  lemma PopBack(cells: seq<Cell>, iterators: map<Key, int>, next: int)
    requires Linked(cells, iterators, next) && cells != []
    ensures Linked(cells[..|cells| - 1], iterators - {cells[|cells| - 1].key}, next)
    ensures Keys(cells) == Keys(cells[..|cells| - 1]) + [cells[|cells| - 1].key]
  {
    DropAtLinked(cells, iterators, next, |cells| - 1);
    assert DropAt(cells, |cells| - 1) == cells[..|cells| - 1];
  }

  // ---- the order of last use

  /** When a key was last used, counting from 1; 0 for never. */
  function LastUse(uses: seq<Key>, k: Key): nat {
    if uses == [] then 0 else if uses[|uses| - 1] == k then |uses| else LastUse(uses[..|uses| - 1], k)
  }

  /** The last use is the last position at which the key was used, counted from one. */
  lemma {:induction false} LastUseIs(uses: seq<Key>, k: Key)
    ensures LastUse(uses, k) > 0 ==> LastUse(uses, k) <= |uses| && uses[LastUse(uses, k) - 1] == k
    ensures forall i | LastUse(uses, k) <= i < |uses| :: uses[i] != k
  {
    if uses == [] {
    } else {
      LastUseIs(uses[..|uses| - 1], k);
    }
  }

  predicate InOrderOfUse(ks: seq<Key>, uses: seq<Key>) {
    forall i, j | 0 <= i < j < |ks| :: LastUse(uses, ks[i]) > LastUse(uses, ks[j])
  }

  lemma {:induction false} LastUseBound(uses: seq<Key>, k: Key)
    ensures LastUse(uses, k) <= |uses|
  {
    if uses == [] {
    } else {
      LastUseBound(uses[..|uses| - 1], k);
    }
  }

  lemma {:induction false} WithoutKeepsOrder(ks: seq<Key>, uses: seq<Key>, k: Key)
    requires InOrderOfUse(ks, uses)
    ensures InOrderOfUse(Without(ks, k), uses)
    ensures forall c :: c in Without(ks, k) <==> c in ks && c != k
    ensures |Without(ks, k)| <= |ks|
  {
    if ks == [] {
    } else {
      var n := |ks| - 1;
      WithoutKeepsOrder(ks[..n], uses, k);
      assert forall c :: c in ks <==> c in ks[..n] || c == ks[n];
      var w := Without(ks[..n], k);
      forall i | 0 <= i < |w|
        ensures LastUse(uses, w[i]) > LastUse(uses, ks[n])
      {
        assert w[i] in ks[..n];
        var j :| 0 <= j < n && ks[j] == w[i];
      }
    }
  }

  /** Using a key moves it to the front and keeps the order of last use. */
  lemma UseKeepsOrder(ks: seq<Key>, uses: seq<Key>, k: Key)
    requires InOrderOfUse(ks, uses)
    ensures InOrderOfUse([k] + Without(ks, k), uses + [k])
  {
    WithoutKeepsOrder(ks, uses, k);
    var w, after := Without(ks, k), uses + [k];
    assert after[..|uses|] == uses;
    forall i | 0 <= i < |w|
      ensures LastUse(after, w[i]) == LastUse(uses, w[i]) <= |uses|
    {
      assert w[i] in w;
      LastUseBound(uses, w[i]);
    }
    assert LastUse(after, k) == |uses| + 1;
  }

  /** The whole list: cells and iterators belong together, and the keys are in order of last use. */
  predicate ListOk(cells: seq<Cell>, iterators: map<Key, int>, next: int, uses: seq<Key>) {
    Linked(cells, iterators, next) && InOrderOfUse(Keys(cells), uses)
  }

  lemma EraseKeepsList(cells: seq<Cell>, iterators: map<Key, int>, next: int, uses: seq<Key>, k: Key)
    requires ListOk(cells, iterators, next, uses) && k in iterators
    ensures ListOk(Erase(cells, iterators[k]), iterators - {k}, next, uses)
    ensures Keys(Erase(cells, iterators[k])) == Without(Keys(cells), k)
  {
    EraseIsWithout(cells, iterators, next, k);
    WithoutKeepsOrder(Keys(cells), uses, k);
  }

  lemma NotListed(cells: seq<Cell>, iterators: map<Key, int>, next: int, k: Key)
    requires Linked(cells, iterators, next) && k !in iterators
    ensures Without(Keys(cells), k) == Keys(cells)
  {
    LinkedKeys(cells, iterators, next);
    WithoutNone(Keys(cells), k);
  }

  lemma PushKeepsList(cells: seq<Cell>, iterators: map<Key, int>, next: int, uses: seq<Key>, k: Key)
    requires ListOk(cells, iterators, next, uses) && k !in iterators
    ensures ListOk([Cell(next, k)] + cells, iterators[k := next], next + 1, uses + [k])
    ensures Keys([Cell(next, k)] + cells) == [k] + Keys(cells)
  {
    PushFront(cells, iterators, next, k);
    NotListed(cells, iterators, next, k);
    UseKeepsOrder(Keys(cells), uses, k);
  }

  lemma PopKeepsList(cells: seq<Cell>, iterators: map<Key, int>, next: int, uses: seq<Key>)
    requires ListOk(cells, iterators, next, uses) && cells != []
    ensures ListOk(cells[..|cells| - 1], iterators - {cells[|cells| - 1].key}, next, uses)
    ensures Keys(cells) == Keys(cells[..|cells| - 1]) + [cells[|cells| - 1].key]
  {
    PopBack(cells, iterators, next);
    FrontKeepsOrder(Keys(cells[..|cells| - 1]), cells[|cells| - 1].key, uses);
  }

  lemma FrontKeepsOrder(ks: seq<Key>, k: Key, uses: seq<Key>)
    requires InOrderOfUse(ks + [k], uses)
    ensures InOrderOfUse(ks, uses)
  {
    assert forall i | 0 <= i < |ks| :: (ks + [k])[i] == ks[i];
  }
}
