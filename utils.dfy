/**
  The data-shaping helpers of `core/utils.py`: `organize_json` renumbers the
  records of a JSON object after a stable sort on their `key_name`, and
  `terminal_line` builds a separator line of a given width.
 */
module Utils {
  import opened Results
  import opened Text
  import opened OrderedDict

  /** One JSON record: a flat object of string fields. */
  type Record = map<string, string>

  const KeyName: string := "key_name"

  /** Python's `<` on `str`: code point by code point, a proper prefix first. */
  predicate Less(a: string, b: string) {
    if a == [] then b != []
    else if b == [] then false
    else if a[0] != b[0] then a[0] < b[0]
    else Less(a[1..], b[1..])
  }

  lemma {:induction false} LessIrreflexive(a: string)
    ensures !Less(a, a)
  {
    if a != [] {
      LessIrreflexive(a[1..]);
    }
  }

  lemma {:induction false} LessTotal(a: string, b: string)
    ensures a == b || Less(a, b) || Less(b, a)
  {
    if a != [] && b != [] && a[0] == b[0] {
      LessTotal(a[1..], b[1..]);
      if a[1..] == b[1..] {
        assert a == [a[0]] + a[1..] && b == [b[0]] + b[1..];
      }
    }
  }

  lemma {:induction false} LessAsymmetric(a: string, b: string)
    requires Less(a, b)
    ensures !Less(b, a)
  {
    if a != [] && b != [] && a[0] == b[0] {
      LessAsymmetric(a[1..], b[1..]);
    }
  }

  lemma {:induction false} LessTransitive(a: string, b: string, c: string)
    requires Less(a, b) && Less(b, c)
    ensures Less(a, c)
  {
    if a != [] && a[0] == b[0] && b[0] == c[0] {
      LessTransitive(a[1..], b[1..], c[1..]);
    }
  }

  /** Not after: `!(b < a)`, which by totality is `a <= b`; it chains. */
  lemma NotLessTransitive(a: string, b: string, c: string)
    requires !Less(b, a) && !Less(c, b)
    ensures !Less(c, a)
  {
    LessTotal(a, b);
    LessTotal(b, c);
    if Less(c, a) {
      if Less(a, b) {
        LessTransitive(c, a, b);
        if a != b && b != c { LessAsymmetric(b, c); }
      }
    }
  }

  /** Non-decreasing in the key. */
  predicate Sorted<T>(s: seq<T>, key: T -> string) {
    forall i, j :: 0 <= i < j < |s| ==> !Less(key(s[j]), key(s[i]))
  }

  /** Put an item after every item whose key is not above its own. */
  function Insert<T>(t: seq<T>, x: T, key: T -> string): (r: seq<T>)
    ensures |r| == |t| + 1
  {
    if t == [] || !Less(key(x), key(t[|t| - 1])) then t + [x]
    else Insert(t[..|t| - 1], x, key) + [t[|t| - 1]]
  }

  /** `list.sort(key=...)`, as a stable insertion sort. */
  function SortBy<T>(s: seq<T>, key: T -> string): (r: seq<T>)
    ensures |r| == |s|
  {
    if s == [] then [] else Insert(SortBy(s[..|s| - 1], key), s[|s| - 1], key)
  }

  /** The items whose key is `k`, in order. */
  function WithKey<T>(s: seq<T>, key: T -> string, k: string): seq<T> {
    if s == [] then []
    else WithKey(s[..|s| - 1], key, k) + (if key(s[|s| - 1]) == k then [s[|s| - 1]] else [])
  }

  lemma {:induction false} InsertPermutes<T>(t: seq<T>, x: T, key: T -> string)
    ensures multiset(Insert(t, x, key)) == multiset(t) + multiset{x}
  {
    if t != [] && Less(key(x), key(t[|t| - 1])) {
      var init, last := t[..|t| - 1], t[|t| - 1];
      assert Insert(t, x, key) == Insert(init, x, key) + [last];
      InsertPermutes(init, x, key);
      assert t == init + [last];
    } else {
      assert Insert(t, x, key) == t + [x];
    }
  }

  lemma SortedSnoc<T>(u: seq<T>, y: T, key: T -> string)
    requires Sorted(u, key)
    requires forall i :: 0 <= i < |u| ==> !Less(key(y), key(u[i]))
    ensures Sorted(u + [y], key)
  {
  }

  lemma {:induction false} InsertSorted<T>(t: seq<T>, x: T, key: T -> string)
    requires Sorted(t, key)
    ensures Sorted(Insert(t, x, key), key)
  {
    if t == [] {
    } else if !Less(key(x), key(t[|t| - 1])) {
      var last := t[|t| - 1];
      forall i | 0 <= i < |t| ensures !Less(key(x), key(t[i])) {
        if i < |t| - 1 {
          NotLessTransitive(key(t[i]), key(last), key(x));
        }
      }
      SortedSnoc(t, x, key);
    } else {
      var init, last := t[..|t| - 1], t[|t| - 1];
      InsertSorted(init, x, key);
      InsertPermutes(init, x, key);
      var u := Insert(init, x, key);
      forall i | 0 <= i < |u| ensures !Less(key(last), key(u[i])) {
        assert u[i] in multiset(u);
        if u[i] == x {
          LessAsymmetric(key(x), key(last));
        } else {
          assert u[i] in multiset(init);
          var j :| 0 <= j < |init| && init[j] == u[i];
          assert t[j] == init[j];
        }
      }
      SortedSnoc(u, last, key);
    }
  }

  lemma WithKeySnoc<T>(u: seq<T>, y: T, key: T -> string, k: string)
    ensures WithKey(u + [y], key, k) == WithKey(u, key, k) + (if key(y) == k then [y] else [])
  {
    assert (u + [y])[..|u|] == u;
  }

  /** Inserting an item leaves the items of every other key as they were, and puts it after those of its own key. */
  lemma {:induction false} InsertWithKey<T>(t: seq<T>, x: T, key: T -> string, k: string)
    ensures WithKey(Insert(t, x, key), key, k) == WithKey(t, key, k) + (if key(x) == k then [x] else [])
  {
    if t == [] || !Less(key(x), key(t[|t| - 1])) {
      assert Insert(t, x, key) == t + [x];
      WithKeySnoc(t, x, key, k);
    } else {
      var init, last := t[..|t| - 1], t[|t| - 1];
      var u := Insert(init, x, key);
      var mine := if key(x) == k then [x] else [];
      var theirs := if key(last) == k then [last] else [];
      assert Insert(t, x, key) == u + [last];
      assert key(x) == k ==> theirs == [] by {
        LessIrreflexive(key(x));
      }
      assert WithKey(u, key, k) == WithKey(init, key, k) + mine by {
        InsertWithKey(init, x, key, k);
      }
      assert WithKey(t, key, k) == WithKey(init, key, k) + theirs by {
        WithKeySnoc(init, last, key, k);
        assert t == init + [last];
      }
      WithKeySnoc(u, last, key, k);
    }
  }

  /** The sorted items are the items, non-decreasing in key. */
  lemma {:induction false} SortBySpec<T>(s: seq<T>, key: T -> string)
    ensures Sorted(SortBy(s, key), key)
    ensures multiset(SortBy(s, key)) == multiset(s)
  {
    SortByOrdered(s, key);
    SortByPermutes(s, key);
  }

  lemma {:induction false} SortByOrdered<T>(s: seq<T>, key: T -> string)
    ensures Sorted(SortBy(s, key), key)
  {
    if s != [] {
      var init, last := s[..|s| - 1], s[|s| - 1];
      assert SortBy(s, key) == Insert(SortBy(init, key), last, key);
      SortByOrdered(init, key);
      InsertSorted(SortBy(init, key), last, key);
    }
  }

  lemma {:induction false} SortByPermutes<T>(s: seq<T>, key: T -> string)
    ensures multiset(SortBy(s, key)) == multiset(s)
  {
    if s != [] {
      var init, last := s[..|s| - 1], s[|s| - 1];
      assert SortBy(s, key) == Insert(SortBy(init, key), last, key);
      SortByPermutes(init, key);
      InsertPermutes(SortBy(init, key), last, key);
      assert s == init + [last];
    }
  }

  /** The sort is stable: items with the same key keep their relative order. */
  lemma {:induction false} SortByStable<T>(s: seq<T>, key: T -> string, k: string)
    ensures WithKey(SortBy(s, key), key, k) == WithKey(s, key, k)
  {
    if s != [] {
      SortByStable(s[..|s| - 1], key, k);
      InsertWithKey(SortBy(s[..|s| - 1], key), s[|s| - 1], key, k);
    }
  }

  /** Items already in key order stay in the same order. */
  lemma {:induction false} SortBySorted<T>(s: seq<T>, key: T -> string)
    requires Sorted(s, key)
    ensures SortBy(s, key) == s
  {
    if s != [] {
      var init, last := s[..|s| - 1], s[|s| - 1];
      assert Sorted(init, key) by {
        forall i, j | 0 <= i < j < |init| ensures !Less(key(init[j]), key(init[i])) {
          assert init[i] == s[i] && init[j] == s[j];
        }
      }
      SortBySorted(init, key);
      assert Insert(init, last, key) == init + [last] by {
        if init != [] {
          assert init[|init| - 1] == s[|s| - 2];
          assert !Less(key(last), key(init[|init| - 1]));
        }
      }
      assert s == init + [last];
    }
  }

  /** `item["key_name"]`; only consulted once every record is known to have the field. */
  function KeyOf(r: Record): string {
    if KeyName in r then r[KeyName] else ""
  }

  /** `{str(i + 1): item for i, item in enumerate(data_list)}` */
  function Renumber(items: seq<Record>): Items<Record> {
    Assign(seq(|items|, i requires 0 <= i < |items| => (NatToString(i + 1), items[i])))
  }

  /** The renumbered object has keys "1" to "n" in order, holding the records in order. */
  lemma RenumberSpec(items: seq<Record>)
    ensures |Renumber(items)| == |items|
    ensures forall i :: 0 <= i < |items| ==> Renumber(items)[i] == (NatToString(i + 1), items[i])
  {
    var ps := seq(|items|, i requires 0 <= i < |items| => (NatToString(i + 1), items[i]));
    forall i, j | 0 <= i < j < |ps| ensures ps[i].0 != ps[j].0 {
      if ps[i].0 == ps[j].0 {
        NatToStringInjective(i + 1, j + 1);
      }
    }
    AssignDistinct(ps);
  }

  /** Every record has a `key_name` field. */
  predicate AllKeyed(s: seq<Record>) {
    forall i :: 0 <= i < |s| ==> KeyName in s[i]
  }

  /** `list(data.values())` */
  function Values(data: Items<Record>): (vs: seq<Record>)
    ensures |vs| == |data|
    ensures forall i :: 0 <= i < |data| ==> vs[i] == data[i].1
  {
    seq(|data|, i requires 0 <= i < |data| => data[i].1)
  }

  /** The object `organize_json` writes back, or the `KeyError` a record without `key_name` raises. */
  function OrganizeJson(data: Items<Record>): (r: Result<Items<Record>>)
    ensures r.Ok? <==> forall i :: 0 <= i < |data| ==> KeyName in data[i].1
    ensures r.Err? ==> r.error == MissingKeyName
  {
    var items := Values(data);
    if !AllKeyed(items) then Err(MissingKeyName)
    else Ok(Renumber(SortBy(items, KeyOf)))
  }

  /**
    The rewrite succeeds exactly when every record has `key_name`; it then
    holds the same records under the keys "1" to "n", in key order, with
    records of equal key in their original order.
   */
  lemma OrganizeJsonSpec(data: Items<Record>)
    ensures OrganizeJson(data).Ok? <==> forall i :: 0 <= i < |data| ==> KeyName in data[i].1
    ensures OrganizeJson(data).Err? ==> OrganizeJson(data).error == MissingKeyName
    ensures OrganizeJson(data).Ok? ==>
      && |OrganizeJson(data).value| == |data|
      && (forall i :: 0 <= i < |data| ==> OrganizeJson(data).value[i].0 == NatToString(i + 1))
      && Sorted(Values(OrganizeJson(data).value), KeyOf)
      && multiset(Values(OrganizeJson(data).value)) == multiset(Values(data))
      && forall k :: WithKey(Values(OrganizeJson(data).value), KeyOf, k) == WithKey(Values(data), KeyOf, k)
  {
    var items := Values(data);
    if AllKeyed(items) {
      var sorted := SortBy(items, KeyOf);
      SortBySpec(items, KeyOf);
      RenumberSpec(sorted);
      assert |sorted| == |items| by {
        assert |multiset(sorted)| == |multiset(items)|;
      }
      var out := Renumber(sorted);
      assert Values(out) == sorted;
      forall k ensures WithKey(Values(out), KeyOf, k) == WithKey(items, KeyOf, k) {
        SortByStable(items, KeyOf, k);
      }
    }
  }

  /** Records already in key order are written back in the same order, renumbered. */
  lemma OrganizeJsonOrdered(data: Items<Record>)
    requires forall i :: 0 <= i < |data| ==> KeyName in data[i].1
    requires Sorted(Values(data), KeyOf)
    ensures OrganizeJson(data).Ok? && Values(OrganizeJson(data).value) == Values(data)
  {
    var items := Values(data);
    assert OrganizeJson(data) == Ok(Renumber(items)) by {
      assert AllKeyed(items);
      SortBySorted(items, KeyOf);
    }
    assert Values(Renumber(items)) == items by {
      RenumberSpec(items);
    }
  }

  /** `char * value`, or the `ValueError` a width of 0 or less raises. */
  function TerminalLine(value: int, ch: string): (r: Result<string>)
    ensures r.Ok? <==> value > 0
    ensures r.Err? ==> r.error == NonPositiveWidth(value)
    ensures r.Ok? ==> |r.value| == value * |ch|
  {
    if value <= 0 then Err(NonPositiveWidth(value))
    else
      RepeatLength(ch, value);
      Ok(Repeat(ch, value))
  }

  /**
    A line is made exactly for a positive width, and is `ch` that many times
    over: position `i` holds `ch[i % len(ch)]`.
   */
  lemma TerminalLineSpec(value: int, ch: string)
    ensures TerminalLine(value, ch).Ok? <==> value > 0
    ensures TerminalLine(value, ch).Err? ==> TerminalLine(value, ch).error == NonPositiveWidth(value)
    ensures TerminalLine(value, ch).Ok? ==> |TerminalLine(value, ch).value| == value * |ch|
    ensures TerminalLine(value, ch).Ok? ==>
      forall i :: 0 <= i < value * |ch| ==> TerminalLine(value, ch).value[i] == ch[i % |ch|]
    ensures TerminalLine(value, ch).Ok? && |ch| == 1 ==>
      forall i :: 0 <= i < value ==> TerminalLine(value, ch).value[i] == ch[0]
  {
    if value > 0 {
      RepeatLength(ch, value);
      forall i | 0 <= i < value * |ch| ensures Repeat(ch, value)[i] == ch[i % |ch|] {
        RepeatIndex(ch, value, i);
      }
      if |ch| == 1 {
        assert ch == [ch[0]];
        RepeatChar(ch[0], value);
      }
    }
  }

  /** The default call, `terminal_line()`: 79 dashes. */
  lemma DefaultTerminalLine()
    ensures TerminalLine(79, "-").Ok?
    ensures |TerminalLine(79, "-").value| == 79
    ensures forall i :: 0 <= i < 79 ==> TerminalLine(79, "-").value[i] == '-'
  {
    TerminalLineSpec(79, "-");
  }
}
