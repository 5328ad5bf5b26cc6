/** The component's records and the list operations its handlers perform on
    them: looking an id up (`find`), dropping every entry with an id
    (`filter`), and building the candidate list from the catalogue
    (`handleFilterItems`). */
module ChipItems {
  import opened ChipText

  datatype Option<+T> = None | Some(value: T) {
    /** The value as a list of at most one entry, as a spread of a found
        item contributes it. */
    function ToSeq(): seq<T> {
      match this
      case None => []
      case Some(v) => [v]
    }
  }

  /** A catalogue entry. A chip has the same shape (the source declares
      `Chip` as an extension of `Item` that adds nothing): a chip copied
      from the catalogue carries every field, one made from free text has
      neither email nor photo. */
  datatype Item = Item(id: string, name: string, email: Option<string>, photoUrl: Option<string>)

  type Chip = Item

  /** Some entry of `xs` has the given id. */
  predicate HasId(xs: seq<Item>, id: string) {
    exists x :: x in xs && x.id == id
  }

  /** No two entries of `xs` share an id. */
  ghost predicate UniqueIds(xs: seq<Item>) {
    forall i, j :: 0 <= i < j < |xs| ==> xs[i].id != xs[j].id
  }

  /** `xs.filter(x => x.id !== id)`: every entry with that id removed, the
      others kept in order; a list without the id comes back unchanged. */
  function WithoutId(xs: seq<Item>, id: string): (r: seq<Item>)
    ensures forall x :: x in r <==> x in xs && x.id != id
    ensures !HasId(r, id)
    ensures !HasId(xs, id) ==> r == xs
    ensures HasId(xs, id) ==> |r| < |xs|
  {
    if xs == [] then []
    else if xs[0].id == id then WithoutId(xs[1..], id)
    else
      assert xs == [xs[0]] + xs[1..];
      [xs[0]] + WithoutId(xs[1..], id)
  }

  /** Removing an id a second time changes nothing. */
  lemma {:induction false} WithoutIdIdempotent(xs: seq<Item>, id: string)
    ensures WithoutId(WithoutId(xs, id), id) == WithoutId(xs, id)
  {
    // WithoutId's own contract: the once-filtered list has no entry with the id.
  }

  /** Removal decides entry by entry, so the kept entries stay in their
      order and number: removing from a concatenation concatenates what is
      left of the parts. */
  lemma {:induction false} WithoutIdAppend(a: seq<Item>, b: seq<Item>, id: string)
    ensures WithoutId(a + b, id) == WithoutId(a, id) + WithoutId(b, id)
  {
    if a == [] {
      assert a + b == b;
    } else {
      var ab := a + b;
      assert ab[0] == a[0] && ab[1..] == a[1..] + b;
      WithoutIdAppend(a[1..], b, id);
      if a[0].id == id {
        assert WithoutId(ab, id) == WithoutId(ab[1..], id);
      } else {
        assert WithoutId(ab, id) == [a[0]] + WithoutId(ab[1..], id);
      }
    }
  }

  /** An entry whose id no later entry has can head an id-unique list. */
  lemma ConsUnique(x: Item, rest: seq<Item>)
    requires UniqueIds(rest)
    requires forall y :: y in rest ==> y.id != x.id
    ensures UniqueIds([x] + rest)
  {
    var r := [x] + rest;
    forall i, j | 0 <= i < j < |r| ensures r[i].id != r[j].id {
      assert r[j] == rest[j - 1];
      if i > 0 {
        assert r[i] == rest[i - 1];
      }
    }
  }

  /** Dropping the head of an id-unique list keeps it id-unique. */
  lemma TailUnique(xs: seq<Item>)
    requires UniqueIds(xs) && xs != []
    ensures UniqueIds(xs[1..])
  {
    var tail := xs[1..];
    forall i, j | 0 <= i < j < |tail| ensures tail[i].id != tail[j].id {
      assert tail[i] == xs[i + 1] && tail[j] == xs[j + 1];
    }
  }

  /** Removing entries keeps ids unique. */
  lemma {:induction false} WithoutIdKeepsUnique(xs: seq<Item>, id: string)
    requires UniqueIds(xs)
    ensures UniqueIds(WithoutId(xs, id))
  {
    if xs != [] {
      var tail := xs[1..];
      TailUnique(xs);
      WithoutIdKeepsUnique(tail, id);
      if xs[0].id != id {
        var rest := WithoutId(tail, id);
        forall y | y in rest ensures y.id != xs[0].id {
          assert y in tail;
          var j :| 0 <= j < |tail| && tail[j] == y;
          assert xs[j + 1] == y;
        }
        ConsUnique(xs[0], rest);
      }
    }
  }

  /** Appending an entry whose id is new keeps ids unique. */
  lemma AppendUnique(xs: seq<Item>, x: Item)
    requires UniqueIds(xs)
    requires !HasId(xs, x.id)
    ensures UniqueIds(xs + [x])
  {
    var r := xs + [x];
    forall i, j | 0 <= i < j < |r| ensures r[i].id != r[j].id {
      assert r[i] == xs[i];
      if j == |xs| {
        assert r[i] in xs;
      } else {
        assert r[j] == xs[j];
      }
    }
  }

  /** Removing the id of the last entry of an id-unique list removes exactly
      that entry. */
  lemma {:induction false} WithoutLastId(xs: seq<Item>)
    requires UniqueIds(xs) && |xs| > 0
    ensures WithoutId(xs, xs[|xs| - 1].id) == xs[..|xs| - 1]
  {
    var last := xs[|xs| - 1];
    if |xs| == 1 {
      assert xs == [last];
    } else {
      var tail := xs[1..];
      assert tail[|tail| - 1] == last;
      TailUnique(xs);
      WithoutLastId(tail);
      assert xs[0].id != last.id by {
        assert xs[0].id != xs[|xs| - 1].id;
      }
      assert WithoutId(xs, last.id) == [xs[0]] + WithoutId(tail, last.id);
      DropLastOfCons(xs);
    }
  }

  /** Dropping the last element of a list of at least two is keeping its
      head and dropping the last element of its tail. */
  lemma DropLastOfCons<T>(xs: seq<T>)
    requires |xs| > 1
    ensures xs[..|xs| - 1] == [xs[0]] + xs[1..][..|xs| - 2]
  {
  }

  /** Position `k` holds the first entry of `xs` with the given id. */
  predicate FirstWithId(xs: seq<Item>, id: string, k: int) {
    0 <= k < |xs| && xs[k].id == id && forall j :: 0 <= j < k ==> xs[j].id != id
  }

  /** A first match in the tail, behind a head without the id, is the first
      match of the whole list one position further on. */
  lemma FirstWithIdShift(xs: seq<Item>, id: string, k: int)
    requires |xs| > 0 && xs[0].id != id && FirstWithId(xs[1..], id, k)
    ensures FirstWithId(xs, id, k + 1)
  {
    forall j | 1 <= j < k + 1 ensures xs[j].id != id {
      assert xs[j] == xs[1..][j - 1];
    }
  }

  /** `xs.find(x => x.id === id)`: the first entry with that id, if any. */
  function FindById(xs: seq<Item>, id: string): (r: Option<Item>)
    ensures r.Some? <==> HasId(xs, id)
    ensures r.Some? ==> exists k :: FirstWithId(xs, id, k) && xs[k] == r.value
  {
    if xs == [] then None
    else if xs[0].id == id then
      assert FirstWithId(xs, id, 0);
      Some(xs[0])
    else
      var r := FindById(xs[1..], id);
      assert xs == [xs[0]] + xs[1..];
      if r.Some? then
        var k :| FirstWithId(xs[1..], id, k) && xs[1..][k] == r.value;
        FirstWithIdShift(xs, id, k);
        r
      else r
  }

  /** Whether the candidate filter keeps catalogue entry `x` for the typed
      `value`: no chip has its id, and its lower-cased name contains the
      lower-cased value. */
  predicate Keeps(chips: seq<Chip>, value: string, x: Item) {
    !HasId(chips, x.id) && Contains(Lower(x.name), Lower(value))
  }

  /** `handleFilterItems(value)`: the catalogue entries the filter keeps. */
  function Filter(items: seq<Item>, chips: seq<Chip>, value: string): (r: seq<Item>)
    ensures forall x :: x in r <==> x in items && Keeps(chips, value, x)
    ensures |r| <= |items|
  {
    if items == [] then []
    else
      assert items == [items[0]] + items[1..];
      (if Keeps(chips, value, items[0]) then [items[0]] else []) + Filter(items[1..], chips, value)
  }

  /** The filter decides entry by entry, so its result keeps catalogue order:
      filtering a concatenation is concatenating the filtered parts. */
  lemma {:induction false} FilterAppend(a: seq<Item>, b: seq<Item>, chips: seq<Chip>, value: string)
    ensures Filter(a + b, chips, value) == Filter(a, chips, value) + Filter(b, chips, value)
  {
    if a == [] {
      assert a + b == b;
    } else {
      assert (a + b)[0] == a[0];
      assert (a + b)[1..] == a[1..] + b;
      FilterAppend(a[1..], b, chips, value);
    }
  }

  /** The filter ignores the case of ASCII letters in the typed value. */
  lemma {:induction false} FilterIgnoresCase(items: seq<Item>, chips: seq<Chip>, v: string, w: string)
    requires Lower(v) == Lower(w)
    ensures Filter(items, chips, v) == Filter(items, chips, w)
  {
    if items != [] {
      FilterIgnoresCase(items[1..], chips, v, w);
    }
  }

  /** Typed values that differ only in the case of ASCII letters select
      the same candidates. */
  lemma FilterCaseBlind(items: seq<Item>, chips: seq<Chip>, v: string, w: string)
    requires |v| == |w| && forall i :: 0 <= i < |v| ==> EqualIgnoringCase(v[i], w[i])
    ensures Filter(items, chips, v) == Filter(items, chips, w)
  {
    LowerEqualIff(v, w);
    FilterIgnoresCase(items, chips, v, w);
  }

  /** The four catalogue entries the component shows. */
  const Nick := Item("1", "Nick Giannopoulos", Some("nick@example.com"),
                     Some("https://www.gravatar.com/avatar/2c7d99fe281ecd3bcd65ab915bac6dd5?s=250"))
  const John := Item("2", "John Doe", Some("john@example.com"),
                     Some("https://xsgames.co/randomusers/assets/avatars/male/8.jpg"))
  const Jane := Item("3", "Jane Smith", Some("jane@example.com"),
                     Some("https://encrypted-tbn0.gstatic.com/images?q=tbn:ANd9GcSXUv6ZrOiS4QQaWCBlsw2zbj64_mcv8Bk-ZCLwDSWLznS_Iu2bxfnet_eaChBoikcPoCc&usqp=CAU"))
  const Alice := Item("4", "Alice Johnson", Some("alice@example.com"),
                      Some("https://cloudcommercepro.com/wp-content/uploads/2022/06/dummy-customer.jpg"))

  /** The catalogue, in display order. */
  const Catalogue: seq<Item> := [Nick, John, Jane, Alice]

  /** The catalogue has four entries with the ids "1" to "4", in that order,
      each with an email and a photo. */
  lemma CatalogueEntries()
    ensures |Catalogue| == 4 && UniqueIds(Catalogue)
    ensures forall k :: 0 <= k < 4 ==> Catalogue[k].id == [('1' as int + k) as char]
    ensures forall x :: x in Catalogue ==> x.email.Some? && x.photoUrl.Some?
  {
  }
}
