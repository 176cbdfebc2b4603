/**
 The animal catalog of game/animals.py: the record of one animal, the name
 normalisation used as the lookup key, the key map built at load time, exact
 lookup and the capped substring search. Reading the JSON file is not modelled:
 the catalog is the sequence of records it would yield.
 */
module Catalog {
  import opened Wrappers
  import opened Text

  /**
   One catalog entry. Optional JSON fields are `Option`s; a numeric range is the
   raw JSON value, `None` when it is missing or not a list.
   */
  datatype Animal = Animal(
    name: string,
    emoji: Option<string>,
    animalClass: Option<string>,
    diet: Option<string>,
    habitat: seq<string>,
    continents: seq<string>,
    sizeKg: Option<seq<real>>,
    lifespanYears: Option<seq<real>>)

  // ---------------------------------------------------------------------------
  // Name normalisation

  /** `normalize`: strip, lower-case, hyphens to spaces, collapse whitespace runs. */
  function Normalize(s: string): string {
    JoinWords(Words(ReplaceHyphens(Lower(Strip(s)))))
  }

  /** The per-character part of `normalize`: lower-case, then hyphen to space. */
  function Fold(s: string): string {
    ReplaceHyphens(Lower(s))
  }

  /** The shape of a normalised name. */
  predicate IsCanonical(s: string) {
    && SingleSpaced(s)
    && forall c :: c in s ==> c != '-' && !IsUpper(c)
  }

  lemma FoldAppend(a: string, b: string)
    ensures Fold(a + b) == Fold(a) + Fold(b)
  {
    assert Lower(a + b) == Lower(a) + Lower(b);
  }

  lemma FoldKeepsSpaces(p: string)
    requires AllSpace(p)
    ensures AllSpace(Fold(p))
  {
  }

  lemma FoldChars(s: string)
    ensures forall c :: c in Fold(s) ==> c != '-' && !IsUpper(c)
  {
    forall c | c in Fold(s)
      ensures c != '-' && !IsUpper(c)
    {
      var i :| 0 <= i < |s| && Fold(s)[i] == c;
      assert Lower(s)[i] == ToLower(s[i]);
    }
  }

  /** Stripping first changes nothing: `normalize(s)` is `" ".join(fold(s).split())`. */
  lemma NormalizeViaFold(s: string)
    ensures Normalize(s) == JoinWords(Words(Fold(s)))
  {
    var l := StripLeft(s);
    var m := StripRight(l);
    StripLeftSpec(s);
    StripRightSpec(l);
    var left := s[..|s| - |l|];
    var right := l[|m|..];
    assert l == m + right;
    assert s == left + (m + right);
    FoldAppend(left, m + right);
    FoldAppend(m, right);
    FoldKeepsSpaces(left);
    FoldKeepsSpaces(right);
    WordsSkipLeading(Fold(left), Fold(m) + Fold(right));
    WordsDropTrailing(Fold(m), Fold(right));
  }

  /** `normalize` output has no hyphen, no upper case, no whitespace but single inner spaces. */
  lemma NormalizeIsCanonical(s: string)
    ensures IsCanonical(Normalize(s))
  {
    NormalizeViaFold(s);
    var ws := Words(Fold(s));
    WordsSpec(Fold(s));
    JoinSingleSpaced(ws);
    FoldChars(s);
    forall c | c in JoinWords(ws)
      ensures c != '-' && !IsUpper(c)
    {
      JoinChars(ws, c);
      if c != ' ' {
        var k :| 0 <= k < |ws| && c in ws[k];
        assert c in Fold(s);
      }
    }
  }

  /** The fixed points of `normalize` are exactly the canonical strings. */
  lemma CanonicalIffFixpoint(s: string)
    ensures Normalize(s) == s <==> IsCanonical(s)
  {
    if IsCanonical(s) {
      if |s| > 0 {
        assert !IsSpace(s[0]) && !IsSpace(s[|s| - 1]);
      }
      assert StripLeft(s) == s;
      assert StripRight(s) == s;
      assert Lower(s) == s by {
        forall i | 0 <= i < |s|
          ensures Lower(s)[i] == s[i]
        {
          assert s[i] in s;
        }
      }
      assert ReplaceHyphens(s) == s by {
        forall i | 0 <= i < |s|
          ensures ReplaceHyphens(s)[i] == s[i]
        {
          assert s[i] in s;
        }
      }
      JoinOfWords(s);
    } else {
      NormalizeIsCanonical(s);
    }
  }

  /** `normalize(normalize(s)) == normalize(s)` */
  lemma NormalizeIdempotent(s: string)
    ensures Normalize(Normalize(s)) == Normalize(s)
  {
    NormalizeIsCanonical(s);
    CanonicalIffFixpoint(Normalize(s));
  }

  /**
   Two names normalise equally exactly when, after lower-casing and turning
   hyphens into spaces, they split into the same words: case, hyphen-versus-space
   and the length or kind of whitespace runs are all that `normalize` forgets.
   */
  lemma NormalizeEquivalence(s: string, t: string)
    ensures Normalize(s) == Normalize(t) <==> Words(Fold(s)) == Words(Fold(t))
  {
    NormalizeViaFold(s);
    NormalizeViaFold(t);
    if Normalize(s) == Normalize(t) {
      WordsSpec(Fold(s));
      WordsSpec(Fold(t));
      WordsOfJoin(Words(Fold(s)));
      WordsOfJoin(Words(Fold(t)));
    }
  }

  /** Any whitespace run inside a name normalises like a single space. */
  lemma NormalizeRun(a: string, p: string, b: string)
    requires AllSpace(p) && |p| > 0
    ensures Normalize(a + p + b) == Normalize(a + " " + b)
  {
    var sp := " ";
    assert AllSpace(sp) by {
      assert IsSpace(sp[0]);
    }
    NormalizeViaFold(a + p + b);
    NormalizeViaFold(a + sp + b);
    FoldAppend(a + p, b);
    FoldAppend(a, p);
    FoldAppend(a + sp, b);
    FoldAppend(a, sp);
    FoldKeepsSpaces(p);
    FoldKeepsSpaces(sp);
    assert |Fold(p)| == |p|;
    assert |Fold(sp)| == 1;
    WordsRun(Fold(a), Fold(p), Fold(b));
    WordsRun(Fold(a), Fold(sp), Fold(b));
  }

  lemma FoldExample()
    ensures Fold("Snow-Leopard") == "snow leopard"
  {
    var s := "Snow-Leopard";
    var l := Lower(s);
    assert l[0] == 's';
    assert l[5] == 'l';
    assert forall i :: 0 <= i < |s| && i != 0 && i != 5 ==> l[i] == s[i];
    assert l == "snow-leopard";
  }

  /** The two spellings from the game's examples share one key. */
  lemma NormalizeExample(s: string, t: string)
    requires s == "Snow-Leopard" && t == "snow leopard"
    ensures Normalize(s) == t
  {
    FoldExample();
    NormalizeViaFold(s);
    assert Normalize(s) == JoinWords(Words(t));
    ExampleIsSingleSpaced(t);
    JoinOfWords(t);
  }

  lemma FoldRunExample(s: string, f: string)
    requires s == "  Snow--Leopard " && f == "  snow  leopard "
    ensures Fold(s) == f
  {
    var l := Lower(s);
    assert l[2] == 's';
    assert l[8] == 'l';
    assert forall i :: 0 <= i < |s| && i != 2 && i != 8 ==> l[i] == s[i];
    assert l == "  snow--leopard ";
  }

  lemma ExampleWord(w: string)
    requires w == "snow" || w == "leopard"
    ensures IsWord(w) && Words(w) == [w]
  {
    assert forall i :: 0 <= i < |w| ==> !IsSpace(w[i]);
    WordsOfJoin([w]);
  }

  lemma ExampleSpaces(p: string)
    requires p == " " || p == "  "
    ensures AllSpace(p) && |p| > 0
  {
  }

  lemma ExampleRunWords(f: string, w1: string, w2: string, sp1: string, sp2: string)
    requires f == "  snow  leopard " && w1 == "snow" && w2 == "leopard" && sp1 == " " && sp2 == "  "
    ensures Words(f) == [w1, w2]
  {
    ExampleSpaces(sp1);
    ExampleSpaces(sp2);
    ExampleWord(w1);
    ExampleWord(w2);
    assert f == sp2 + (w1 + sp2 + w2 + sp1);
    WordsSkipLeading(sp2, w1 + sp2 + w2 + sp1);
    WordsDropTrailing(w1 + sp2 + w2, sp1);
    WordsRun(w1, sp2, w2);
  }

  lemma ExampleJoin(w1: string, w2: string, t: string)
    requires w1 == "snow" && w2 == "leopard" && t == "snow leopard"
    ensures JoinWords([w1, w2]) == t
  {
    assert JoinWords([w1, w2]) == w1 + " " + w2;
  }

  /** Outer whitespace, case and a doubled hyphen all disappear: `"  Snow--Leopard "` gives `"snow leopard"`. */
  lemma NormalizeRunExample(s: string, t: string)
    requires s == "  Snow--Leopard " && t == "snow leopard"
    ensures Normalize(s) == t
  {
    FoldRunExample(s, "  snow  leopard ");
    NormalizeViaFold(s);
    ExampleRunWords("  snow  leopard ", "snow", "leopard", " ", "  ");
    ExampleJoin("snow", "leopard", t);
  }

  lemma ExampleIsSingleSpaced(t: string)
    requires t == "snow leopard"
    ensures SingleSpaced(t)
  {
    assert forall i :: 0 <= i < |t| && i != 4 ==> !IsSpace(t[i]);
  }

  // ---------------------------------------------------------------------------
  // Keyed lists, generic in the key so that proofs about them never unfold `Normalize`

  /** `items[i]` is the last element whose key is `k`. */
  predicate IsLastWithKey<T>(items: seq<T>, key: T -> string, k: string, i: int) {
    && 0 <= i < |items|
    && key(items[i]) == k
    && forall j :: i < j < |items| ==> key(items[j]) != k
  }

  /** A dict filled by `d[key(x)] = x` for each element in turn. */
  function IndexBy<T>(items: seq<T>, key: T -> string): map<string, T> {
    if |items| == 0 then map[]
    else IndexBy(items[..|items| - 1], key)[key(items[|items| - 1]) := items[|items| - 1]]
  }

  /** Every key occurring in `items` is in the map, and it holds the last element with that key. */
  lemma {:induction false} IndexBySpec<T>(items: seq<T>, key: T -> string, k: string)
    ensures k in IndexBy(items, key) <==> exists i :: 0 <= i < |items| && key(items[i]) == k
    ensures k in IndexBy(items, key) ==>
      exists i :: IsLastWithKey(items, key, k, i) && IndexBy(items, key)[k] == items[i]
    decreases |items|
  {
    if |items| > 0 {
      var n := |items| - 1;
      var init := items[..n];
      IndexBySpec(init, key, k);
      if key(items[n]) == k {
        assert IsLastWithKey(items, key, k, n);
      } else {
        if k in IndexBy(init, key) {
          var i :| IsLastWithKey(init, key, k, i) && IndexBy(init, key)[k] == init[i];
          assert IsLastWithKey(items, key, k, i);
        }
        if exists i :: 0 <= i < |items| && key(items[i]) == k {
          var i :| 0 <= i < |items| && key(items[i]) == k;
          assert i < n && key(init[i]) == k;
        }
      }
    }
  }

  /** The elements that satisfy `keep`, in their original order. */
  function Filter<T>(items: seq<T>, keep: T -> bool): seq<T> {
    if |items| == 0 then []
    else
      var last := items[|items| - 1];
      Filter(items[..|items| - 1], keep) + (if keep(last) then [last] else [])
  }

  /** Filtering keeps exactly the elements that satisfy the test. */
  lemma {:induction false} FilterMembers<T>(items: seq<T>, keep: T -> bool, x: T)
    ensures x in Filter(items, keep) <==> x in items && keep(x)
    decreases |items|
  {
    if |items| > 0 {
      var init := items[..|items| - 1];
      FilterMembers(init, keep, x);
      assert items == init + [items[|items| - 1]];
    }
  }

  /** Filtering distributes over concatenation: the original order is kept. */
  lemma {:induction false} FilterAppend<T>(a: seq<T>, b: seq<T>, keep: T -> bool)
    ensures Filter(a + b, keep) == Filter(a, keep) + Filter(b, keep)
    decreases |b|
  {
    if |b| == 0 {
      assert a + b == a;
    } else {
      var binit := b[..|b| - 1];
      assert (a + b)[..|a + b| - 1] == a + binit;
      assert (a + b)[|a + b| - 1] == b[|b| - 1];
      FilterAppend(a, binit, keep);
    }
  }

  lemma {:induction false} FilterPrefix<T>(items: seq<T>, n: int, keep: T -> bool)
    requires 0 <= n <= |items|
    ensures Filter(items[..n], keep) <= Filter(items, keep)
  {
    assert items == items[..n] + items[n..];
    FilterAppend(items[..n], items[n..], keep);
  }

  /** Python's `s[:n]`, where a negative `n` counts from the end. */
  function PyPrefix<T>(s: seq<T>, n: int): seq<T> {
    if n >= 0 then s[..if n < |s| then n else |s|]
    else s[..if |s| + n > 0 then |s| + n else 0]
  }

  /**
   How many matches the search loops keep: they test the cap only after an append,
   so a cap below one still lets the first match through.
   */
  function Cap(limit: int): int {
    if limit >= 1 then limit else 1
  }

  /**
   The append-then-test-the-cap loop shared by `search` and the detailed
   listing: the first elements passing the test, in order, as many as the cap allows.
   */
  method FirstMatches<T>(items: seq<T>, keep: T -> bool, limit: int) returns (out: seq<T>)
    ensures out <= Filter(items, keep)
    ensures |out| <= Cap(limit)
    ensures |out| < Cap(limit) ==> out == Filter(items, keep)
  {
    out := [];
    var i := 0;
    while i < |items|
      invariant 0 <= i <= |items|
      invariant out == Filter(items[..i], keep)
      invariant |out| < Cap(limit)
    {
      var a := items[i];
      assert items[..i + 1][..i] == items[..i];
      if keep(a) {
        out := out + [a];
        if |out| >= limit {
          FilterPrefix(items, i + 1, keep);
          return;
        }
      }
      i := i + 1;
    }
    assert items[..i] == items;
  }

  // ---------------------------------------------------------------------------
  // The catalog

  function Key(a: Animal): string {
    Normalize(a.name)
  }

  datatype AnimalDB = AnimalDB(items: seq<Animal>, byName: map<string, Animal>)

  /** `by_name` as the loop in `load` builds it. */
  function IndexByName(items: seq<Animal>): map<string, Animal> {
    IndexBy(items, Key)
  }

  /** `AnimalDB.load` after the file has been read into `items`. */
  function Load(items: seq<Animal>): (db: AnimalDB)
    ensures db.items == items && Loaded(db)
    ensures forall k :: k in db.byName <==> exists i :: 0 <= i < |items| && Key(items[i]) == k
  {
    var db := AnimalDB(items, IndexByName(items));
    assert forall k :: k in db.byName <==> exists i :: 0 <= i < |items| && Key(items[i]) == k by {
      forall k {
        IndexBySpec(items, Key, k);
      }
    }
    db
  }

  predicate Loaded(db: AnimalDB) {
    db.byName == IndexByName(db.items)
  }

  /** `AnimalDB.get`: a dict lookup under the normalised name. */
  function Get(db: AnimalDB, name: string): Option<Animal> {
    var k := Normalize(name);
    if k in db.byName then Some(db.byName[k]) else None
  }

  /**
   On a loaded catalog, `get` finds the last record whose normalised name equals the
   normalised query, and `None` exactly when no record has that key.
   */
  lemma {:induction false} GetSpec(db: AnimalDB, name: string)
    requires Loaded(db)
    ensures Get(db, name).None? <==>
      forall i :: 0 <= i < |db.items| ==> Key(db.items[i]) != Normalize(name)
    ensures Get(db, name).Some? ==>
      exists i :: && 0 <= i < |db.items|
                  && Key(db.items[i]) == Normalize(name)
                  && (forall j :: i < j < |db.items| ==> Key(db.items[j]) != Normalize(name))
                  && Get(db, name).value == db.items[i]
  {
    var k := Normalize(name);
    IndexBySpec(db.items, Key, k);
    if k in db.byName {
      var i :| IsLastWithKey(db.items, Key, k, i) && db.byName[k] == db.items[i];
      assert Key(db.items[i]) == k;
    }
  }

  /** Looking up an already normalised name finds the same record (the guess route does this). */
  lemma GetOfNormalized(db: AnimalDB, name: string)
    ensures Get(db, Normalize(name)) == Get(db, name)
  {
    NormalizeIdempotent(name);
  }

  /** Spellings that differ only in case, hyphen-versus-space or whitespace find the same record. */
  lemma GetIgnoresSpelling(db: AnimalDB, s: string, t: string)
    requires Words(Fold(s)) == Words(Fold(t))
    ensures Get(db, s) == Get(db, t)
  {
    NormalizeEquivalence(s, t);
  }

  /** With unique keys, looking up any spelling of a record's name finds that record. */
  lemma GetFindsUniqueRecord(db: AnimalDB, i: int, name: string)
    requires Loaded(db)
    requires forall j, k :: 0 <= j < k < |db.items| ==> Key(db.items[j]) != Key(db.items[k])
    requires 0 <= i < |db.items| && Normalize(name) == Key(db.items[i])
    ensures Get(db, name) == Some(db.items[i])
  {
    var k := Normalize(name);
    IndexBySpec(db.items, Key, k);
    var j :| IsLastWithKey(db.items, Key, k, j) && db.byName[k] == db.items[j];
    assert i == j;
  }

  // ---------------------------------------------------------------------------
  // Substring search

  /** `qn in normalize(a["name_en"])` */
  predicate Hit(a: Animal, qn: string) {
    Contains(Key(a), qn)
  }

  function HitBy(qn: string): Animal -> bool {
    a => Hit(a, qn)
  }

  /** The records whose normalised name contains `qn`, in catalog order. */
  function Matching(items: seq<Animal>, qn: string): seq<Animal> {
    Filter(items, HitBy(qn))
  }

  function Names(items: seq<Animal>): (r: seq<string>)
    ensures |r| == |items|
    ensures forall i :: 0 <= i < |items| ==> r[i] == items[i].name
  {
    seq(|items|, i requires 0 <= i < |items| => items[i].name)
  }

  lemma NamesPrefix(a: seq<Animal>, b: seq<Animal>)
    requires a <= b
    ensures Names(a) <= Names(b)
  {
    assert Names(a) == Names(b)[..|a|];
  }

  /**
   `AnimalDB.search`: an empty normalised query lists the first `limit` names;
   otherwise the names of the first matches in catalog order, at most `Cap(limit)`.
   */
  method Search(db: AnimalDB, q: string, limit: int) returns (names: seq<string>)
    ensures Normalize(q) == "" ==> names == Names(PyPrefix(db.items, limit))
    ensures Normalize(q) != "" ==>
      && |names| <= Cap(limit)
      && names <= Names(Matching(db.items, Normalize(q)))
      && (|names| < Cap(limit) ==> names == Names(Matching(db.items, Normalize(q))))
  {
    var qn := Normalize(q);
    if qn == "" {
      return Names(PyPrefix(db.items, limit));
    }
    var hits := FirstMatches(db.items, HitBy(qn), limit);
    NamesPrefix(hits, Matching(db.items, qn));
    names := Names(hits);
  }

  /** Every name `search` returns for a nonempty query contains the normalised query. */
  lemma SearchResultsMatch(db: AnimalDB, qn: string, names: seq<string>, k: int)
    requires names <= Names(Matching(db.items, qn))
    requires 0 <= k < |names|
    ensures exists i :: 0 <= i < |db.items| && db.items[i].name == names[k] && Hit(db.items[i], qn)
  {
    var m := Matching(db.items, qn);
    FilterMembers(db.items, HitBy(qn), m[k]);
    assert m[k] in m;
  }

}
