/** The clue panel of src/components/crossword/ClueList.tsx: the active word
    keys split into an across list and a down list, each sorted by number,
    and the single-key update a clue's text box makes. */
module ClueList {
  import opened Types
  import opened WordKeys
  import opened Numbering
  import Clues

  /** One row of the panel: the word's number and its key. */
  datatype ClueItem = ClueItem(number: int, key: string)

  // ---- Sorting by number ----

  predicate SortedByNumber(xs: seq<ClueItem>)
  {
    forall i, j :: 0 <= i < j < |xs| ==> xs[i].number <= xs[j].number
  }

  predicate DistinctNumbers(xs: seq<ClueItem>)
  {
    forall i, j :: 0 <= i < j < |xs| ==> xs[i].number != xs[j].number
  }

  /** `xs` with `x` placed after every item whose number is not greater. */
  function Insert(x: ClueItem, xs: seq<ClueItem>): (ys: seq<ClueItem>)
    ensures |ys| == |xs| + 1
  {
    if xs == [] || x.number < xs[0].number then [x] + xs
    else [xs[0]] + Insert(x, xs[1..])
  }

  /** `items.sort((a, b) => a.number - b.number)`: a stable sort by number,
      written as an insertion sort. */
  function SortByNumber(xs: seq<ClueItem>): (s: seq<ClueItem>)
    ensures |s| == |xs|
  {
    if xs == [] then [] else Insert(xs[|xs| - 1], SortByNumber(xs[..|xs| - 1]))
  }

  lemma {:induction false} InsertPermutes(x: ClueItem, xs: seq<ClueItem>)
    ensures multiset(Insert(x, xs)) == multiset(xs) + multiset{x}
  {
    if xs != [] && x.number >= xs[0].number {
      InsertPermutes(x, xs[1..]);
      assert xs == [xs[0]] + xs[1..];
      assert multiset(Insert(x, xs)) == multiset{xs[0]} + multiset(Insert(x, xs[1..]));
    }
  }

  /** Every item of `Insert(x, xs)` is `x` or an item of `xs`. */
  lemma InsertFrom(x: ClueItem, xs: seq<ClueItem>, j: int)
    requires 0 <= j < |Insert(x, xs)|
    ensures Insert(x, xs)[j] == x || Insert(x, xs)[j] in xs
  {
    InsertPermutes(x, xs);
    assert Insert(x, xs)[j] in multiset(Insert(x, xs));
  }

  /** Inserting into a sorted list keeps it sorted. */
  lemma {:induction false} InsertSorted(x: ClueItem, xs: seq<ClueItem>)
    requires SortedByNumber(xs)
    ensures SortedByNumber(Insert(x, xs))
  {
    if xs != [] && x.number >= xs[0].number {
      var rest := xs[1..];
      InsertSorted(x, rest);
      var ys := Insert(x, rest);
      forall j | 0 <= j < |ys| ensures xs[0].number <= ys[j].number {
        InsertFrom(x, rest, j);
      }
    }
  }

  /** Inserting an item whose number is new keeps the numbers distinct. */
  lemma {:induction false} InsertDistinct(x: ClueItem, xs: seq<ClueItem>)
    requires DistinctNumbers(xs) && forall y :: y in xs ==> y.number != x.number
    ensures DistinctNumbers(Insert(x, xs))
  {
    if xs != [] && x.number >= xs[0].number {
      var rest := xs[1..];
      InsertDistinct(x, rest);
      var ys := Insert(x, rest);
      forall j | 0 <= j < |ys| ensures xs[0].number != ys[j].number {
        InsertFrom(x, rest, j);
      }
    }
  }

  /** The sort returns a permutation of its input. */
  lemma {:induction false} SortPermutes(xs: seq<ClueItem>)
    ensures multiset(SortByNumber(xs)) == multiset(xs)
  {
    if xs != [] {
      var init := xs[..|xs| - 1];
      SortPermutes(init);
      InsertPermutes(xs[|xs| - 1], SortByNumber(init));
      assert xs == init + [xs[|xs| - 1]];
      assert multiset(xs) == multiset(init) + multiset{xs[|xs| - 1]};
    }
  }

  /** The sort returns its input in ascending order of number, strictly
      ascending when the numbers are distinct. */
  lemma {:induction false} SortOrders(xs: seq<ClueItem>)
    ensures SortedByNumber(SortByNumber(xs))
    ensures DistinctNumbers(xs) ==> DistinctNumbers(SortByNumber(xs))
  {
    if xs != [] {
      var init := xs[..|xs| - 1];
      var x := xs[|xs| - 1];
      var sorted := SortByNumber(init);
      SortOrders(init);
      InsertSorted(x, sorted);
      if DistinctNumbers(xs) {
        SortPermutes(init);
        forall y | y in sorted ensures y.number != x.number {
          assert y in multiset(sorted);
          var a :| 0 <= a < |init| && init[a] == y;
        }
        InsertDistinct(x, sorted);
      }
    }
  }

  // ---- The two lists ----

  /** The item shows a word of direction `d`: its key is the printed form
      of its number and `d`, and splitting and parsing the key gives back
      that number and `d`. */
  predicate ItemOfDirection(item: ClueItem, d: Direction)
  {
    item.key == KeyString(WordKey(item.number, d)) && ParseKey(item.key) == Some(WordKey(item.number, d))
  }

  /** `items` lists exactly the keys of `keys` whose direction is `d`, in
      strictly ascending order of number, each with the number parsed from
      it. */
  ghost predicate ListsDirection(keys: set<string>, d: Direction, items: seq<ClueItem>)
  {
    (forall i :: 0 <= i < |items| ==> items[i].key in keys && ItemOfDirection(items[i], d)) &&
    (forall key :: key in keys && KeyOfDirection(key, d) ==>
       exists i :: 0 <= i < |items| && items[i].key == key) &&
    (forall i, j :: 0 <= i < j < |items| ==> items[i].number < items[j].number)
  }

  /** The key parses to a number and the direction `d`. */
  predicate KeyOfDirection(key: string, d: Direction)
  {
    ParseKey(key).Some? && ParseKey(key).value.dir == d
  }

  /** The piece after the key's '-' is "across": the key goes to the
      across list. */
  predicate IsAcrossKey(key: string)
  {
    SplitKey(key).1 == Some("across")
  }

  /** Every other key goes to the down list. */
  predicate IsDownListKey(key: string)
  {
    !IsAcrossKey(key)
  }

  /** The number `parseInt` reads from the piece of `key` before its '-'. */
  function KeyNumber(key: string): int
    requires ParseInt(SplitKey(key).0).Some?
  {
    ParseInt(SplitKey(key).0).value
  }

  /** The list the `forEach` builds over `xs`: an item of number `num(key)`
      for each key that `pick` accepts, in the order of `xs`. */
  function GatherBy(xs: seq<string>, pick: string -> bool, num: string --> int): seq<ClueItem>
    requires forall i :: 0 <= i < |xs| ==> num.requires(xs[i])
  {
    if xs == [] then []
    else
      var rest := GatherBy(xs[..|xs| - 1], pick, num);
      var key := xs[|xs| - 1];
      if pick(key) then rest + [ClueItem(num(key), key)] else rest
  }

  /** `items` holds one item per key of `keys` that `pick` accepts, with
      number `num(key)`, in strictly ascending order of number. */
  ghost predicate ListsBy(keys: set<string>, pick: string -> bool, num: string --> int, items: seq<ClueItem>)
  {
    (forall i :: 0 <= i < |items| ==>
       items[i].key in keys && pick(items[i].key) && num.requires(items[i].key) && items[i].number == num(items[i].key)) &&
    (forall key :: key in keys && pick(key) ==> exists i :: 0 <= i < |items| && items[i].key == key) &&
    (forall i, j :: 0 <= i < j < |items| ==> items[i].number < items[j].number)
  }

  /** The gathered list is the list gathered from all keys but the last,
      followed by an item for the last key when `pick` accepts it. */
  lemma GatherByLast(xs: seq<string>, pick: string -> bool, num: string --> int)
    requires xs != [] && forall i :: 0 <= i < |xs| ==> num.requires(xs[i])
    ensures var rest := GatherBy(xs[..|xs| - 1], pick, num);
      var key := xs[|xs| - 1];
      GatherBy(xs, pick, num) == if pick(key) then rest + [ClueItem(num(key), key)] else rest
  {
  }

  /** Each gathered item is an accepted key of `xs` with its number. */
  lemma {:induction false} GatherByItems(xs: seq<string>, pick: string -> bool, num: string --> int, items: seq<ClueItem>)
    requires forall i :: 0 <= i < |xs| ==> num.requires(xs[i])
    requires items == GatherBy(xs, pick, num)
    ensures forall i :: 0 <= i < |items| ==>
        items[i].key in xs && pick(items[i].key) && num.requires(items[i].key) && items[i].number == num(items[i].key)
  {
    if xs != [] {
      var init := xs[..|xs| - 1];
      GatherByItems(init, pick, num, GatherBy(init, pick, num));
      GatherByLast(xs, pick, num);
      assert forall j :: 0 <= j < |init| ==> init[j] == xs[j];
    }
  }

  /** Every accepted key of `xs` is gathered. */
  lemma {:induction false} GatherByCovers(xs: seq<string>, pick: string -> bool, num: string --> int, items: seq<ClueItem>)
    requires forall i :: 0 <= i < |xs| ==> num.requires(xs[i])
    requires items == GatherBy(xs, pick, num)
    ensures forall j :: 0 <= j < |xs| && pick(xs[j]) ==> exists i :: 0 <= i < |items| && items[i].key == xs[j]
  {
    if xs != [] {
      var init := xs[..|xs| - 1];
      GatherByCovers(init, pick, num, GatherBy(init, pick, num));
      GatherByLast(xs, pick, num);
      var rest := GatherBy(init, pick, num);
      assert forall i :: 0 <= i < |rest| ==> items[i] == rest[i];
      forall j | 0 <= j < |xs| && pick(xs[j]) ensures exists i :: 0 <= i < |items| && items[i].key == xs[j] {
        if j == |init| {
          assert items[|rest|].key == xs[j];
        } else {
          assert xs[j] == init[j];
        }
      }
    }
  }

  /** Over distinct keys on which `num` tells the accepted keys apart, the
      gathered items have distinct numbers. */
  lemma {:induction false} GatherByDistinct(xs: seq<string>, pick: string -> bool, num: string --> int)
    requires forall i :: 0 <= i < |xs| ==> num.requires(xs[i])
    requires forall i, j :: 0 <= i < j < |xs| ==> xs[i] != xs[j]
    requires forall i, j :: 0 <= i < j < |xs| && pick(xs[i]) && pick(xs[j]) ==> num(xs[i]) != num(xs[j])
    ensures DistinctNumbers(GatherBy(xs, pick, num))
  {
    if xs != [] {
      var init := xs[..|xs| - 1];
      var key := xs[|xs| - 1];
      assert forall j :: 0 <= j < |init| ==> init[j] == xs[j];
      GatherByDistinct(init, pick, num);
      GatherByItems(init, pick, num, GatherBy(init, pick, num));
      GatherByLast(xs, pick, num);
      var rest := GatherBy(init, pick, num);
      if pick(key) {
        forall i | 0 <= i < |rest| ensures rest[i].number != num(key) {
          var j :| 0 <= j < |init| && init[j] == rest[i].key;
        }
      }
    }
  }

  /** An element of a sequence is found in any permutation of it. */
  lemma InPermutation<T>(a: seq<T>, b: seq<T>, i: int) returns (j: int)
    requires multiset(a) == multiset(b) && 0 <= i < |a|
    ensures 0 <= j < |b| && b[j] == a[i]
  {
    assert a[i] in multiset(b);
    j :| 0 <= j < |b| && b[j] == a[i];
  }

  /** A permutation of items that are accepted keys of `keys` with their
      numbers consists of such items too. */
  lemma PermutedItems(keys: set<string>, xs: seq<string>, pick: string -> bool, num: string --> int,
                      items: seq<ClueItem>, s: seq<ClueItem>)
    requires forall x :: x in keys <==> x in xs
    requires multiset(s) == multiset(items)
    requires forall i :: 0 <= i < |items| ==>
      items[i].key in xs && pick(items[i].key) && num.requires(items[i].key) && items[i].number == num(items[i].key)
    ensures forall i :: 0 <= i < |s| ==>
      s[i].key in keys && pick(s[i].key) && num.requires(s[i].key) && s[i].number == num(s[i].key)
  {
    forall i | 0 <= i < |s| ensures s[i].key in keys && pick(s[i].key) && num.requires(s[i].key) && s[i].number == num(s[i].key) {
      var j := InPermutation(s, items, i);
    }
  }

  /** A permutation of items covering the accepted keys of `xs` covers
      the accepted keys of `keys`. */
  lemma PermutedCovers(keys: set<string>, xs: seq<string>, pick: string -> bool, items: seq<ClueItem>, s: seq<ClueItem>)
    requires forall x :: x in keys <==> x in xs
    requires multiset(s) == multiset(items)
    requires forall j :: 0 <= j < |xs| && pick(xs[j]) ==> exists i :: 0 <= i < |items| && items[i].key == xs[j]
    ensures forall key :: key in keys && pick(key) ==> exists i :: 0 <= i < |s| && s[i].key == key
  {
    forall key | key in keys && pick(key) ensures exists i :: 0 <= i < |s| && s[i].key == key {
      var x :| 0 <= x < |xs| && xs[x] == key;
      var j :| 0 <= j < |items| && items[j].key == key;
      var i := InPermutation(items, s, j);
    }
  }

  /** Sorting the gathered list gives each accepted key once, in strictly
      ascending order of number. */
  lemma SortedGatherBy(keys: set<string>, xs: seq<string>, pick: string -> bool, num: string --> int)
    requires forall x :: x in keys <==> x in xs
    requires forall i :: 0 <= i < |xs| ==> num.requires(xs[i])
    requires forall i, j :: 0 <= i < j < |xs| ==> xs[i] != xs[j]
    requires forall i, j :: 0 <= i < j < |xs| && pick(xs[i]) && pick(xs[j]) ==> num(xs[i]) != num(xs[j])
    ensures ListsBy(keys, pick, num, SortByNumber(GatherBy(xs, pick, num)))
  {
    var items := GatherBy(xs, pick, num);
    var s := SortByNumber(items);
    GatherByItems(xs, pick, num, items);
    GatherByCovers(xs, pick, num, items);
    GatherByDistinct(xs, pick, num);
    SortPermutes(items);
    SortOrders(items);
    assert multiset(s) == multiset(items);
    assert SortedByNumber(s);
    assert DistinctNumbers(s);
    PermutedLists(keys, xs, pick, num, items, s);
  }

  /** An ascending permutation with distinct numbers of the gathered items
      lists the accepted keys. */
  lemma PermutedLists(keys: set<string>, xs: seq<string>, pick: string -> bool, num: string --> int,
                      items: seq<ClueItem>, s: seq<ClueItem>)
    requires forall x :: x in keys <==> x in xs
    requires multiset(s) == multiset(items) && SortedByNumber(s) && DistinctNumbers(s)
    requires forall i :: 0 <= i < |items| ==>
      items[i].key in xs && pick(items[i].key) && num.requires(items[i].key) && items[i].number == num(items[i].key)
    requires forall j :: 0 <= j < |xs| && pick(xs[j]) ==> exists i :: 0 <= i < |items| && items[i].key == xs[j]
    ensures ListsBy(keys, pick, num, s)
  {
    PermutedItems(keys, xs, pick, num, items, s);
    PermutedCovers(keys, xs, pick, items, s);
  }

  /** A key the numbering engine produces is read as its own number and
      direction: it goes to the across list iff its direction is across. */
  lemma ActiveKeyRead(g: Grid, key: string) returns (k: WordKey)
    requires key in ActiveKeys(g)
    ensures key == KeyString(k) && ParseKey(key) == Some(k) && k.number >= 1
    ensures ParseInt(SplitKey(key).0).Some? && KeyNumber(key) == k.number
    ensures IsAcrossKey(key) <==> k.dir == Across
    ensures KeyOfDirection(key, k.dir) && !KeyOfDirection(key, Flip(k.dir))
    ensures ItemOfDirection(ClueItem(KeyNumber(key), key), k.dir)
  {
    k := ActiveKeyShape(g, key);
    SplitKeyString(k);
  }

  /** Two distinct active keys of the same direction have different numbers. */
  lemma ActiveKeysApart(g: Grid, key1: string, key2: string)
    requires key1 in ActiveKeys(g) && key2 in ActiveKeys(g) && key1 != key2
    requires IsAcrossKey(key1) == IsAcrossKey(key2)
    ensures ParseInt(SplitKey(key1).0).Some? && ParseInt(SplitKey(key2).0).Some? && KeyNumber(key1) != KeyNumber(key2)
  {
    var k1 := ActiveKeyRead(g, key1);
    var k2 := ActiveKeyRead(g, key2);
  }

  /** Over the active keys, the lists the `forEach` and the sort build are
      the lists of the two directions. */
  lemma ListsOfDirections(g: Grid, d: Direction, pick: string -> bool, items: seq<ClueItem>)
    requires pick == (if d == Across then IsAcrossKey else IsDownListKey)
    requires forall key :: key in ActiveKeys(g) ==> ParseInt(SplitKey(key).0).Some?
    requires ListsBy(ActiveKeys(g), pick, KeyNumber, items)
    ensures ListsDirection(ActiveKeys(g), d, items)
  {
    forall i | 0 <= i < |items| ensures ItemOfDirection(items[i], d) {
      var k := ActiveKeyRead(g, items[i].key);
    }
    forall key | key in ActiveKeys(g) && KeyOfDirection(key, d) ensures pick(key) {
      var k := ActiveKeyRead(g, key);
    }
  }

  /** An enumeration of the active keys can be read by the `forEach`, and
      keys sent to the same list have different numbers. */
  lemma ActiveKeysReadable(g: Grid, xs: seq<string>)
    requires forall x :: x in ActiveKeys(g) <==> x in xs
    requires forall i, j :: 0 <= i < j < |xs| ==> xs[i] != xs[j]
    ensures forall i :: 0 <= i < |xs| ==> ParseInt(SplitKey(xs[i]).0).Some?
    ensures forall i, j :: 0 <= i < j < |xs| && IsAcrossKey(xs[i]) && IsAcrossKey(xs[j]) ==> KeyNumber(xs[i]) != KeyNumber(xs[j])
    ensures forall i, j :: 0 <= i < j < |xs| && IsDownListKey(xs[i]) && IsDownListKey(xs[j]) ==> KeyNumber(xs[i]) != KeyNumber(xs[j])
  {
    forall i | 0 <= i < |xs| ensures ParseInt(SplitKey(xs[i]).0).Some? {
      var k := ActiveKeyRead(g, xs[i]);
    }
    forall i, j | 0 <= i < j < |xs| && IsAcrossKey(xs[i]) == IsAcrossKey(xs[j])
      ensures KeyNumber(xs[i]) != KeyNumber(xs[j])
    {
      ActiveKeysApart(g, xs[i], xs[j]);
    }
  }

  /** The `forEach` of `generatedClues`: each key pushed to the across
      list when the piece after its '-' is "across" and to the down list
      otherwise, with the number parsed from the piece before it. */
  method SplitByDirection(xs: seq<string>) returns (acrossItems: seq<ClueItem>, downItems: seq<ClueItem>)
    requires forall i :: 0 <= i < |xs| ==> ParseInt(SplitKey(xs[i]).0).Some?
    ensures acrossItems == GatherBy(xs, IsAcrossKey, KeyNumber)
    ensures downItems == GatherBy(xs, IsDownListKey, KeyNumber)
  {
    acrossItems, downItems := [], [];
    for n := 0 to |xs|
      invariant acrossItems == GatherBy(xs[..n], IsAcrossKey, KeyNumber)
      invariant downItems == GatherBy(xs[..n], IsDownListKey, KeyNumber)
    {
      var key := xs[n];
      var (numStr, dir) := SplitKey(key);
      var num := ParseInt(numStr).value;
      assert xs[..n + 1][..n] == xs[..n];
      if dir == Some("across") {
        acrossItems := acrossItems + [ClueItem(num, key)];
      } else {
        downItems := downItems + [ClueItem(num, key)];
      }
    }
    assert xs[..|xs|] == xs;
  }

  /** `generatedClues`: numbers the grid for its keys, splits them by
      direction, then sorts both lists by number. */
  method GeneratedClues(grid: Grid, size: GridSize) returns (across: seq<ClueItem>, down: seq<ClueItem>)
    requires Fits(grid, size)
    ensures ListsDirection(ActiveKeys(grid), Across, across)
    ensures ListsDirection(ActiveKeys(grid), Down, down)
  {
    var _, activeClueKeys := NumberGrid(grid, size);
    var xs := Clues.Enumerate(activeClueKeys);
    ActiveKeysReadable(grid, xs);
    var acrossItems, downItems := SplitByDirection(xs);
    across := SortByNumber(acrossItems);
    down := SortByNumber(downItems);
    SortedGatherBy(activeClueKeys, xs, IsAcrossKey, KeyNumber);
    SortedGatherBy(activeClueKeys, xs, IsDownListKey, KeyNumber);
    ListsOfDirections(grid, Across, IsAcrossKey, across);
    ListsOfDirections(grid, Down, IsDownListKey, down);
  }

  // ---- What the panel promises ----

  /** Every active key is listed in exactly one of the two lists: the
      across list when its direction is across, the down list otherwise. */
  lemma ListsPartition(g: Grid, across: seq<ClueItem>, down: seq<ClueItem>, key: string)
    requires ListsDirection(ActiveKeys(g), Across, across)
    requires ListsDirection(ActiveKeys(g), Down, down)
    ensures key in ActiveKeys(g) <==>
      (exists i :: 0 <= i < |across| && across[i].key == key) || (exists i :: 0 <= i < |down| && down[i].key == key)
    ensures !((exists i :: 0 <= i < |across| && across[i].key == key) && (exists i :: 0 <= i < |down| && down[i].key == key))
  {
    if key in ActiveKeys(g) {
      var k := ActiveKeyShape(g, key);
    }
  }

  /** Number n is listed in direction `d` iff the square numbered n
      begins a word of two or more squares in `d`. */
  lemma ListedIff(g: Grid, d: Direction, items: seq<ClueItem>, n: int)
    requires ListsDirection(ActiveKeys(g), d, items)
    ensures (exists i :: 0 <= i < |items| && items[i].number == n) <==>
      exists r, c :: 0 <= r < |g| && 0 <= c < |g[r]| && NumberedGrid(g)[r][c].number == Some(n) && Begins(g, r, c, d)
  {
    if exists i :: 0 <= i < |items| && items[i].number == n {
      BeginsIfListed(g, d, items, n);
    }
    if exists r, c :: 0 <= r < |g| && 0 <= c < |g[r]| && NumberedGrid(g)[r][c].number == Some(n) && Begins(g, r, c, d) {
      var r, c :| 0 <= r < |g| && 0 <= c < |g[r]| && NumberedGrid(g)[r][c].number == Some(n) && Begins(g, r, c, d);
      NumbersAreOneToTotal(g);
      ListedIfBegins(g, d, items, n);
    }
  }

  lemma BeginsIfListed(g: Grid, d: Direction, items: seq<ClueItem>, n: int)
    requires ListsDirection(ActiveKeys(g), d, items)
    requires exists i :: 0 <= i < |items| && items[i].number == n
    ensures exists r, c :: 0 <= r < |g| && 0 <= c < |g[r]| && NumberedGrid(g)[r][c].number == Some(n) && Begins(g, r, c, d)
  {
    var i :| 0 <= i < |items| && items[i].number == n;
    var k := ActiveKeyShape(g, items[i].key);
    ActiveKeyBegins(g, n, d);
  }

  lemma ListedIfBegins(g: Grid, d: Direction, items: seq<ClueItem>, n: nat)
    requires ListsDirection(ActiveKeys(g), d, items)
    requires exists r, c :: 0 <= r < |g| && 0 <= c < |g[r]| && NumberedGrid(g)[r][c].number == Some(n) && Begins(g, r, c, d)
    ensures exists i :: 0 <= i < |items| && items[i].number == n
  {
    ActiveKeyBegins(g, n, d);
    var key := KeyString(WordKey(n, d));
    ParseKeyString(WordKey(n, d));
    var i :| 0 <= i < |items| && items[i].key == key;
    KeyStringInjective(WordKey(items[i].number, d), WordKey(n, d));
  }

  /** A list is empty, and the panel shows its placeholder, iff no square
      of the grid begins a word of two or more squares in its direction. */
  lemma ListEmptyIff(g: Grid, d: Direction, items: seq<ClueItem>)
    requires ListsDirection(ActiveKeys(g), d, items)
    ensures items == [] <==> forall r, c :: 0 <= r < |g| && 0 <= c < |g[r]| ==> !Begins(g, r, c, d)
  {
    if items != [] {
      ListedIff(g, d, items, items[0].number);
    }
    if exists r, c :: 0 <= r < |g| && 0 <= c < |g[r]| && Begins(g, r, c, d) {
      var r, c :| 0 <= r < |g| && 0 <= c < |g[r]| && Begins(g, r, c, d);
      NumberedIff(g, r, c);
      var n := NumberedGrid(g)[r][c].number.value;
      ListedIff(g, d, items, n);
    }
  }

  // ---- Editing a clue ----

  /** `setClueTexts({ ...clueTexts, [item.key]: value })`. */
  function EditClue(texts: map<string, string>, key: string, value: string): (t: map<string, string>)
    ensures ClueTextOf(t, key) == value
    ensures t.Keys == texts.Keys + {key}
    ensures forall k :: k != key ==> ClueTextOf(t, k) == ClueTextOf(texts, k)
  {
    texts[key := value]
  }
}
