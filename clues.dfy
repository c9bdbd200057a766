/** The clue list of a saved project (src/hooks/useCrossword.ts): `handleSave`
    turns every word key into a clue record, and `handleLoad` turns the
    records back into the map from keys to clue texts. */
module Clues {
  import opened Types
  import opened WordKeys
  import opened Numbering

  /** `${clue.number}-${clue.direction}`: the key a loaded clue is stored under. */
  function ClueKey(c: Clue): string
  {
    KeyString(WordKey(c.number, c.direction))
  }

  /** A key that splits and parses to a number and a direction which print
      back to the key itself, as every key of the numbering engine does. */
  predicate CanonicalKey(key: string)
  {
    ParseKey(key).Some? && KeyString(ParseKey(key).value) == key
  }

  /** The record `handleSave` makes from one key: the parsed number and
      direction, and the clue text stored under the key or "". */
  function ExportedClue(key: string, texts: map<string, string>): (c: Clue)
    requires CanonicalKey(key)
    ensures ClueKey(c) == key
  {
    var k := ParseKey(key).value;
    Clue(k.number, k.dir, ClueTextOf(texts, key))
  }

  /** `clues` holds exactly one record per key of `keys` under the key
      function `key`, each with the clue text stored under its key or "". */
  ghost predicate ExportedBy(key: Clue -> string, keys: set<string>, texts: map<string, string>, clues: seq<Clue>)
  {
    |clues| == |keys| &&
    (forall i :: 0 <= i < |clues| ==> key(clues[i]) in keys && clues[i].text == ClueTextOf(texts, key(clues[i]))) &&
    (forall k :: k in keys ==> exists i :: 0 <= i < |clues| && key(clues[i]) == k) &&
    (forall i, j :: 0 <= i < j < |clues| ==> key(clues[i]) != key(clues[j]))
  }

  /** `clues` holds exactly one record per key of `keys`: the record's
      number and direction print back to the key, and its text is the clue
      text stored under the key or "". */
  ghost predicate IsExport(keys: set<string>, texts: map<string, string>, clues: seq<Clue>)
  {
    ExportedBy(ClueKey, keys, texts, clues)
  }

  /** `Array.from` on a set: every element once, in some order. */
  method Enumerate<T>(s: set<T>) returns (xs: seq<T>)
    ensures |xs| == |s|
    ensures forall x :: x in s <==> x in xs
    ensures forall i, j :: 0 <= i < j < |xs| ==> xs[i] != xs[j]
  {
    xs := [];
    var rest := s;
    while rest != {}
      invariant rest <= s
      invariant forall x :: x in s <==> x in rest || x in xs
      invariant forall x :: x in xs ==> x !in rest
      invariant |xs| + |rest| == |s|
      invariant forall i, j :: 0 <= i < j < |xs| ==> xs[i] != xs[j]
      decreases |rest|
    {
      var x :| x in rest;
      xs := xs + [x];
      rest := rest - {x};
    }
  }

  /** Records made one per element of an enumeration of `keys` form an
      export of `keys`. */
  lemma MappedExport(key: Clue -> string, keys: set<string>, texts: map<string, string>, xs: seq<string>, clues: seq<Clue>)
    requires |xs| == |keys| && (forall x :: x in keys <==> x in xs)
    requires forall i, j :: 0 <= i < j < |xs| ==> xs[i] != xs[j]
    requires |clues| == |xs|
    requires forall i :: 0 <= i < |xs| ==> key(clues[i]) == xs[i] && clues[i].text == ClueTextOf(texts, xs[i])
    ensures ExportedBy(key, keys, texts, clues)
  {
    forall k | k in keys ensures exists i :: 0 <= i < |clues| && key(clues[i]) == k {
      var i :| 0 <= i < |xs| && xs[i] == k;
    }
  }

  /** The `cluesExport` step of `handleSave`: the keys as an array, each
      mapped to its record. */
  method ExportClues(keys: set<string>, texts: map<string, string>) returns (clues: seq<Clue>)
    requires forall k :: k in keys ==> CanonicalKey(k)
    ensures IsExport(keys, texts, clues)
  {
    var xs := Enumerate(keys);
    clues := seq(|xs|, i requires 0 <= i < |xs| => ExportedClue(xs[i], texts));
    MappedExport(ClueKey, keys, texts, xs, clues);
  }

  /** The clue list `handleSave` writes: the grid's word keys, each with
      its clue text or "". */
  method SaveClues(grid: Grid, size: GridSize, clueTexts: map<string, string>) returns (clues: seq<Clue>)
    requires Fits(grid, size)
    ensures IsExport(ActiveKeys(grid), clueTexts, clues)
  {
    var _, activeClueKeys := NumberGrid(grid, size);
    ActiveKeysCanonical(grid);
    clues := ExportClues(activeClueKeys, clueTexts);
  }

  /** The map built by storing each record's text under `key` of the
      record, in order, so a later record overwrites an earlier one. */
  function MapBy(key: Clue -> string, clues: seq<Clue>): map<string, string>
  {
    if clues == [] then map[]
    else MapBy(key, clues[..|clues| - 1])[key(clues[|clues| - 1]) := clues[|clues| - 1].text]
  }

  /** The map the `forEach` of `handleLoad` builds. */
  function ClueMap(clues: seq<Clue>): map<string, string>
  {
    MapBy(ClueKey, clues)
  }

  /** The `forEach` of `handleLoad`. */
  method ImportClues(clues: seq<Clue>) returns (texts: map<string, string>)
    ensures texts == ClueMap(clues)
  {
    texts := map[];
    for i := 0 to |clues|
      invariant texts == MapBy(ClueKey, clues[..i])
    {
      assert clues[..i + 1][..i] == clues[..i];
      texts := texts[ClueKey(clues[i]) := clues[i].text];
    }
    assert clues[..|clues|] == clues;
  }

  /** A key is in the built map iff some record has it, and its text is
      that of the last record with it. */
  lemma {:induction false} MapBySpec(key: Clue -> string, clues: seq<Clue>, k: string)
    ensures k in MapBy(key, clues) <==> exists i :: 0 <= i < |clues| && key(clues[i]) == k
    ensures forall i :: (0 <= i < |clues| && key(clues[i]) == k &&
      forall j :: i < j < |clues| ==> key(clues[j]) != k) ==> MapBy(key, clues)[k] == clues[i].text
  {
    if clues != [] {
      var init := clues[..|clues| - 1];
      MapBySpec(key, init, k);
      assert forall i :: 0 <= i < |init| ==> init[i] == clues[i];
    }
  }

  lemma ExportedByRoundTrip(key: Clue -> string, keys: set<string>, texts: map<string, string>, clues: seq<Clue>)
    requires ExportedBy(key, keys, texts, clues)
    ensures MapBy(key, clues) == map k | k in keys :: ClueTextOf(texts, k)
  {
    forall k ensures k in MapBy(key, clues) <==> k in keys {
      MapBySpec(key, clues, k);
    }
    forall k | k in keys ensures MapBy(key, clues)[k] == ClueTextOf(texts, k) {
      MapBySpec(key, clues, k);
      var i :| 0 <= i < |clues| && key(clues[i]) == k;
    }
  }

  /** Loading the records a save wrote gives back the clue texts of the
      saved keys, with "" for a key that had no text; texts stored under
      keys that are not saved are dropped. */
  lemma ExportImportRoundTrip(keys: set<string>, texts: map<string, string>, clues: seq<Clue>)
    requires IsExport(keys, texts, clues)
    ensures ClueMap(clues) == map k | k in keys :: ClueTextOf(texts, k)
  {
    ExportedByRoundTrip(ClueKey, keys, texts, clues);
  }

  /** Every key of the numbering engine prints back to itself, so
      `handleSave` can export it. */
  lemma ActiveKeysCanonical(g: Grid)
    ensures forall key :: key in ActiveKeys(g) ==> CanonicalKey(key)
  {
    forall key | key in ActiveKeys(g) ensures CanonicalKey(key) {
      var k := ActiveKeyShape(g, key);
    }
  }

  /** Each record exported for a grid names a word of that grid: its
      number is at least 1, and the square carrying that number begins a
      word of two or more squares in the record's direction. */
  lemma ExportedCluesMatchWords(g: Grid, texts: map<string, string>, clues: seq<Clue>, i: int)
    requires IsExport(ActiveKeys(g), texts, clues) && 0 <= i < |clues|
    ensures clues[i].number >= 1
    ensures exists r, c :: 0 <= r < |g| && 0 <= c < |g[r]| && NumberedGrid(g)[r][c].number == Some(clues[i].number) && Begins(g, r, c, clues[i].direction)
  {
    var clue := clues[i];
    var k := ActiveKeyShape(g, ClueKey(clue));
    KeyStringInjective(WordKey(clue.number, clue.direction), k);
    ActiveKeyBegins(g, k.number, k.dir);
  }
}
