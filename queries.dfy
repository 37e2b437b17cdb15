/** The ORM queries the handlers issue, stated over the in-memory sequence of
    rows: filters that keep the id order, the case-insensitive substring test
    behind `ilike`, the one-or-none lookups by id and the category dictionary. */
module Queries {
  import opened Entities

  /** `query.filter(p)`: the rows satisfying p, in their order. */
  function Filter(s: seq<Question>, p: Question -> bool): (r: seq<Question>)
    ensures |r| <= |s|
    ensures forall q :: q in r <==> q in s && p(q)
    decreases |s|
  {
    if s == [] then []
    else
      var rest := Filter(s[1..], p);
      assert forall q :: q in s ==> q == s[0] || q in s[1..];
      if p(s[0]) then [s[0]] + rest else rest
  }

  /** Filtering rows in id order leaves them in id order. */
  lemma {:induction false} FilterOrdered(s: seq<Question>, p: Question -> bool)
    requires IdOrdered(s)
    ensures IdOrdered(Filter(s, p))
    decreases |s|
  {
    if s != [] {
      FilterOrdered(s[1..], p);
      var rest := Filter(s[1..], p);
      forall q | q in rest ensures s[0].id < q.id {
        var k :| 0 <= k < |s[1..]| && s[1..][k] == q;
        assert s[k + 1] == q;
      }
    }
  }

  /** When no row satisfies p, the filter returns nothing. */
  lemma FilterNoneMatch(s: seq<Question>, p: Question -> bool)
    requires forall q :: q in s ==> !p(q)
    ensures Filter(s, p) == []
  {
    NoRowsIsEmpty(Filter(s, p));
  }

  /** `filter(Question.category == category)` */
  function InCategory(s: seq<Question>, category: int): (r: seq<Question>)
    ensures forall q :: q in r <==> q in s && q.category == category
    ensures IdOrdered(s) ==> IdOrdered(r)
  {
    var p := (q: Question) => q.category == category;
    assert IdOrdered(s) ==> IdOrdered(Filter(s, p)) by {
      if IdOrdered(s) { FilterOrdered(s, p); }
    }
    Filter(s, p)
  }

  /** `filter(~Question.id.in_(previous))` */
  function NotAsked(s: seq<Question>, previous: seq<int>): (r: seq<Question>)
    ensures forall q :: q in r <==> q in s && q.id !in previous
    ensures IdOrdered(s) ==> IdOrdered(r)
  {
    var p := (q: Question) => q.id !in previous;
    assert IdOrdered(s) ==> IdOrdered(Filter(s, p)) by {
      if IdOrdered(s) { FilterOrdered(s, p); }
    }
    Filter(s, p)
  }

  /** Two id-ordered sequences holding the same rows are equal: a selection
      is determined by which rows it holds once it is known to be in id order. */
  lemma {:induction false} OrderedSameRowsEqual(a: seq<Question>, b: seq<Question>)
    requires IdOrdered(a) && IdOrdered(b)
    requires forall q :: q in a <==> q in b
    ensures a == b
    decreases |a|
  {
    if a != [] { assert a[0] in b; }
    if b != [] { assert b[0] in a; }
    if a != [] && b != [] {
      var i :| 0 <= i < |b| && b[i] == a[0];
      var j :| 0 <= j < |a| && a[j] == b[0];
      assert a[0].id <= a[j].id && b[0].id <= b[i].id;
      assert i == 0;
      forall q
        ensures q in a[1..] <==> q in b[1..]
      {
        if q in a[1..] {
          var k :| 1 <= k < |a| && a[k] == q;
          assert q in b;
          assert q.id != b[0].id;
        }
        if q in b[1..] {
          var k :| 1 <= k < |b| && b[k] == q;
          assert q in a;
          assert q.id != a[0].id;
        }
      }
      OrderedSameRowsEqual(a[1..], b[1..]);
      assert a == [a[0]] + a[1..];
      assert b == [b[0]] + b[1..];
    }
  }

  /** ASCII case folding (the model's reading of `ilike`'s case-insensitivity). */
  function Lower(c: char): char {
    if 'A' <= c <= 'Z' then (c as int + 32) as char else c
  }

  function LowerAll(s: string): (r: string)
    ensures |r| == |s|
  {
    seq(|s|, i requires 0 <= i < |s| => Lower(s[i]))
  }

  lemma LowerIdempotent(s: string)
    ensures LowerAll(LowerAll(s)) == LowerAll(s)
  {
  }

  /** Plain substring test: w occurs somewhere in t. */
  function Contains(t: string, w: string): (b: bool)
    ensures b <==> exists i :: 0 <= i <= |t| && w <= t[i..]
    decreases |t|
  {
    if w <= t then
      assert w <= t[0..];
      true
    else if t == [] then false
    else
      var r := Contains(t[1..], w);
      if r then
        var i :| 0 <= i <= |t[1..]| && w <= t[1..][i..];
        assert t[1..][i..] == t[i + 1..];
        true
      else
        forall i | 0 < i <= |t| ensures !(w <= t[i..]) {
          assert t[1..][i - 1..] == t[i..];
        }
        false
  }

  /** `Question.question.ilike("%" + term + "%")`, without SQL wildcards in the term. */
  predicate ContainsIgnoringCase(text: string, term: string) {
    Contains(LowerAll(text), LowerAll(term))
  }

  /** Changing the case of the letters of the term does not change the outcome. */
  lemma SearchIgnoresTermCase(text: string, term: string)
    ensures ContainsIgnoringCase(text, LowerAll(term)) == ContainsIgnoringCase(text, term)
  {
    LowerIdempotent(term);
  }

  /** The test suite's search term "Taj Mahal", written in any case, matches
      the Taj Mahal question. */
  lemma TajMahalMatches(term: string)
    requires LowerAll(term) == LowerAll("Taj Mahal")
    ensures ContainsIgnoringCase("The " + "Taj Mahal" + " is located in which Indian city?", term)
  {
    var prefix, name, rest := "The ", "Taj Mahal", " is located in which Indian city?";
    var t := LowerAll(prefix + name + rest);
    assert (prefix + name + rest)[4..13] == name;
    assert t[4..13] == LowerAll(name);
    assert LowerAll(term) <= t[4..];
  }

  /** The search selection of `create_question`: the rows whose text contains the term. */
  function Matching(s: seq<Question>, term: string): (r: seq<Question>)
    ensures forall q :: q in r <==> q in s && ContainsIgnoringCase(q.question, term)
    ensures IdOrdered(s) ==> IdOrdered(r)
  {
    var p := (q: Question) => ContainsIgnoringCase(q.question, term);
    assert IdOrdered(s) ==> IdOrdered(Filter(s, p)) by {
      if IdOrdered(s) { FilterOrdered(s, p); }
    }
    Filter(s, p)
  }

  /** `Question.query.filter(Question.id == id).one_or_none()` over rows with
      distinct ids, as the index of the row. */
  function IndexOf(s: seq<Question>, id: int): (r: Option<nat>)
    ensures r.Some? ==> r.value < |s| && s[r.value].id == id
    ensures r.None? <==> forall q :: q in s ==> q.id != id
    decreases |s|
  {
    if s == [] then None
    else if s[0].id == id then Some(0)
    else
      match IndexOf(s[1..], id)
      case None =>
        assert forall q :: q in s ==> q == s[0] || q in s[1..];
        None
      case Some(i) =>
        assert s[1..][i] in s;
        Some(i + 1)
  }

  /** Removing the row at index i of an id-ordered table keeps the id order and
      leaves every other row in place; only the row with that id goes. */
  lemma RemoveAt(s: seq<Question>, i: nat)
    requires IdOrdered(s) && i < |s|
    ensures var r := s[..i] + s[i + 1..];
            && |r| == |s| - 1
            && IdOrdered(r)
            && (forall q :: q in r <==> q in s && q.id != s[i].id)
  {
    var r := s[..i] + s[i + 1..];
    forall j | 0 <= j < |r| ensures r[j] == s[if j < i then j else j + 1] {}
    forall q ensures q in r <==> q in s && q.id != s[i].id {
      if q in r {
        var j :| 0 <= j < |r| && r[j] == q;
        assert q == s[if j < i then j else j + 1];
      }
      if q in s && q.id != s[i].id {
        var k :| 0 <= k < |s| && s[k] == q;
        assert k != i;
        assert r[if k < i then k else k - 1] == q;
      }
    }
  }

  /** `Category.query.filter(Category.id == id).one_or_none()` over category
      rows with distinct ids. */
  function FindCategory(cats: seq<Category>, id: int): (r: Option<Category>)
    ensures r.Some? ==> r.value in cats && r.value.id == id
    ensures r.None? <==> forall c :: c in cats ==> c.id != id
    decreases |cats|
  {
    if cats == [] then None
    else if cats[0].id == id then Some(cats[0])
    else
      assert forall c :: c in cats ==> c == cats[0] || c in cats[1..];
      FindCategory(cats[1..], id)
  }

  function CategoryIds(cats: seq<Category>): set<int> {
    set c | c in cats :: c.id
  }

  /** `{c.format()['id'] : c.format()['type'] for c in categories}`: entries
      are added in row order, a later duplicate key overwriting an earlier one. */
  function CategoryMap(cats: seq<Category>): (m: map<int, string>)
    ensures m.Keys == CategoryIds(cats)
    decreases |cats|
  {
    if cats == [] then map[]
    else
      var last := cats[|cats| - 1];
      var front := cats[..|cats| - 1];
      assert cats == front + [last];
      CategoryMap(front)[last.id := last.kind]
  }

  /** Over a category table with distinct ids, the dictionary maps each id to
      its own label and has one entry per row. */
  lemma {:induction false} CategoryMapOfTable(cats: seq<Category>)
    requires DistinctCategoryIds(cats)
    ensures forall c :: c in cats ==> c.id in CategoryMap(cats) && CategoryMap(cats)[c.id] == c.kind
    ensures |CategoryMap(cats)| == |cats|
    decreases |cats|
  {
    if cats != [] {
      var last := cats[|cats| - 1];
      var front := cats[..|cats| - 1];
      assert cats == front + [last];
      CategoryMapOfTable(front);
      forall c | c in front ensures c.id != last.id {
        var k :| 0 <= k < |front| && front[k] == c;
        assert cats[k] == c;
      }
      assert last.id !in CategoryMap(front);
      forall c | c in cats ensures c.id in CategoryMap(cats) && CategoryMap(cats)[c.id] == c.kind {
        if c != last {
          var k :| 0 <= k < |cats| && cats[k] == c;
          assert k < |cats| - 1;
          assert front[k] == c;
        }
      }
    }
  }
}
