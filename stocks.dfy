/**
 * The static market-data table and its three lookups (mock_stocks.py):
 * a case-insensitive symbol lookup, a substring search over symbol and
 * company name, and the list of every quote.
 */
module MockStocks {
  import opened Wrappers

  /** One quote of the table. The price and ratio fields are floats no logic reads; they are left out. */
  datatype Stock = Stock(symbol: string, name: string, volume: string, marketCap: string)

  /** A dictionary keyed by symbol, as its (key, value) pairs in insertion order. */
  type Table = seq<(string, Stock)>

  /** `MOCK_STOCKS`, in the order the dictionary literal lists it. */
  const MOCK_STOCKS: Table := [
    ("AAPL", Stock("AAPL", "Apple Inc.", "52.4M", "$2.78T")),
    ("GOOGL", Stock("GOOGL", "Alphabet Inc.", "22.5M", "$1.42T")),
    ("MSFT", Stock("MSFT", "Microsoft Corporation", "18.9M", "$3.08T")),
    ("AMZN", Stock("AMZN", "Amazon.com Inc.", "38.2M", "$2.05T")),
    ("TSLA", Stock("TSLA", "Tesla Inc.", "125.6M", "$785.5B")),
    ("META", Stock("META", "Meta Platforms Inc.", "12.3M", "$1.65T")),
    ("NVDA", Stock("NVDA", "NVIDIA Corporation", "35.4M", "$2.15T")),
    ("NFLX", Stock("NFLX", "Netflix Inc.", "3.2M", "$127.3B"))
  ]

  // ---------------------------------------------------------------------------
  // Strings
  // ---------------------------------------------------------------------------

  /** Upper-case mapping of one character (ASCII letters only). */
  function UpperChar(c: char): char
  {
    if 'a' <= c <= 'z' then (c as int - 32) as char else c
  }

  /** `str.upper()`: every character mapped by UpperChar, length kept. */
  function Upper(s: string): (u: string)
    ensures |u| == |s|
    ensures forall i :: 0 <= i < |s| ==> u[i] == UpperChar(s[i])
  {
    if s == [] then [] else [UpperChar(s[0])] + Upper(s[1..])
  }

  /** Upper-casing twice is upper-casing once. */
  lemma UpperIdempotent(s: string)
    ensures Upper(Upper(s)) == Upper(s)
  {
    var u := Upper(s);
    assert forall i :: 0 <= i < |u| ==> Upper(u)[i] == u[i];
  }

  /** Python's `q in s` on strings: q occurs as a contiguous block of s. */
  predicate Contains(s: string, q: string)
    decreases |s|
  {
    q <= s || (s != [] && Contains(s[1..], q))
  }

  /** The empty query occurs in every string. */
  lemma EmptyContained(s: string)
    ensures Contains(s, "")
  {
  }

  /** Contains agrees with "some window of s equals q". */
  lemma {:induction false} ContainsAt(s: string, q: string)
    ensures Contains(s, q) <==> exists i :: 0 <= i <= |s| - |q| && q <= s[i..]
  {
    if q <= s {
      assert q <= s[0..];
    } else if s == [] {
    } else {
      ContainsAt(s[1..], q);
      if exists i :: 0 <= i <= |s| - |q| && q <= s[i..] {
        var i :| 0 <= i <= |s| - |q| && q <= s[i..];
        assert i != 0;
        assert s[1..][i - 1..] == s[i..];
      }
      if Contains(s[1..], q) {
        var i :| 0 <= i <= |s[1..]| - |q| && q <= s[1..][i..];
        assert s[1..][i..] == s[i + 1..];
      }
    }
  }

  // ---------------------------------------------------------------------------
  // Dictionary view
  // ---------------------------------------------------------------------------

  /** The keys of a table have no repetition and each key is its quote's symbol. */
  predicate WellFormed(t: Table)
  {
    && (forall i, j :: 0 <= i < j < |t| ==> t[i].0 != t[j].0)
    && (forall i :: 0 <= i < |t| ==> t[i].1.symbol == t[i].0)
  }

  /** No element occurs twice. */
  predicate Distinct<T(==)>(s: seq<T>)
  {
    forall i, j :: 0 <= i < j < |s| ==> s[i] != s[j]
  }

  /** `dict.values()`, in order. */
  function Values(t: Table): (r: seq<Stock>)
    ensures |r| == |t|
    ensures forall i :: 0 <= i < |t| ==> r[i] == t[i].1
  {
    if t == [] then [] else Values(t[..|t| - 1]) + [t[|t| - 1].1]
  }

  /** `dict.get(key)`: the value under key, or None when key is absent. */
  function Lookup(t: Table, key: string): (r: Option<Stock>)
    ensures r.None? <==> forall i :: 0 <= i < |t| ==> t[i].0 != key
    ensures r.Some? ==> exists i :: 0 <= i < |t| && t[i] == (key, r.value)
  {
    if t == [] then None
    else if t[0].0 == key then Some(t[0].1)
    else
      var r := Lookup(t[1..], key);
      assert forall i :: 1 <= i < |t| ==> t[i] == t[1..][i - 1];
      r
  }

  /** In a well-formed table the lookup finds exactly the entry stored under the key. */
  lemma LookupEntry(t: Table, i: nat)
    requires WellFormed(t) && i < |t|
    ensures Lookup(t, t[i].0) == Some(t[i].1)
  {
    var r := Lookup(t, t[i].0);
    var j :| 0 <= j < |t| && t[j] == (t[i].0, r.value);
    assert j == i;
  }

  /** Well-formedness of the table makes its values pairwise distinct. */
  lemma WellFormedValuesDistinct(t: Table)
    requires WellFormed(t)
    ensures Distinct(Values(t))
  {
    var v := Values(t);
    forall i, j | 0 <= i < j < |v| ensures v[i] != v[j] {
      assert v[i].symbol == t[i].0 && v[j].symbol == t[j].0;
    }
  }

  /** key is not among the keys of t. */
  predicate KeyAbsent(key: string, t: Table)
  {
    t == [] || (t[0].0 != key && KeyAbsent(key, t[1..]))
  }

  /** No key of t occurs twice (the recursive form, which a literal table evaluates). */
  predicate DistinctKeys(t: Table)
  {
    t == [] || (KeyAbsent(t[0].0, t[1..]) && DistinctKeys(t[1..]))
  }

  lemma {:induction false} DistinctKeysDistinct(t: Table)
    requires DistinctKeys(t)
    ensures forall i, j :: 0 <= i < j < |t| ==> t[i].0 != t[j].0
  {
    if t != [] {
      DistinctKeysDistinct(t[1..]);
      KeyAbsentAt(t[0].0, t[1..]);
      forall i, j | 0 <= i < j < |t| ensures t[i].0 != t[j].0 {
        if i > 0 {
          assert t[i] == t[1..][i - 1] && t[j] == t[1..][j - 1];
        } else {
          assert t[j] == t[1..][j - 1];
        }
      }
    }
  }

  lemma {:induction false} KeyAbsentAt(key: string, t: Table)
    requires KeyAbsent(key, t)
    ensures forall i :: 0 <= i < |t| ==> t[i].0 != key
  {
    if t != [] {
      KeyAbsentAt(key, t[1..]);
      assert forall i :: 1 <= i < |t| ==> t[i] == t[1..][i - 1];
    }
  }

  /** p holds of every entry of t (the recursive form, which a literal table evaluates). */
  predicate AllEntries(t: Table, p: ((string, Stock)) -> bool)
  {
    t == [] || (p(t[0]) && AllEntries(t[1..], p))
  }

  lemma {:induction false} AllEntriesAt(t: Table, p: ((string, Stock)) -> bool)
    requires AllEntries(t, p)
    ensures forall i :: 0 <= i < |t| ==> p(t[i])
  {
    if t != [] {
      AllEntriesAt(t[1..], p);
      assert forall i :: 1 <= i < |t| ==> t[i] == t[1..][i - 1];
    }
  }

  /** The keys of the literal table are pairwise distinct. */
  lemma MockKeysDistinct()
    ensures forall i, j :: 0 <= i < j < |MOCK_STOCKS| ==> MOCK_STOCKS[i].0 != MOCK_STOCKS[j].0
  {
    assert DistinctKeys(MOCK_STOCKS);
    DistinctKeysDistinct(MOCK_STOCKS);
  }

  /** Every character of s is an upper-case ASCII letter. */
  predicate AllCapitals(s: string)
  {
    s == [] || ('A' <= s[0] <= 'Z' && AllCapitals(s[1..]))
  }

  lemma {:induction false} UpperOfCapitals(s: string)
    requires AllCapitals(s)
    ensures Upper(s) == s
  {
    if s != [] {
      UpperOfCapitals(s[1..]);
    }
  }

  /** Each quote of the literal table carries its own key as symbol. */
  lemma MockSymbolsAreKeys()
    ensures forall i :: 0 <= i < |MOCK_STOCKS| ==> MOCK_STOCKS[i].1.symbol == MOCK_STOCKS[i].0
  {
    var symbolIsKey := (e: (string, Stock)) => e.1.symbol == e.0;
    assert AllEntries(MOCK_STOCKS, symbolIsKey);
    AllEntriesAt(MOCK_STOCKS, symbolIsKey);
  }

  /** Every key of the literal table is already upper case. */
  lemma MockKeysUpper()
    ensures forall i :: 0 <= i < |MOCK_STOCKS| ==> Upper(MOCK_STOCKS[i].0) == MOCK_STOCKS[i].0
  {
    var keys := ["AAPL", "GOOGL", "MSFT", "AMZN", "TSLA", "META", "NVDA", "NFLX"];
    assert forall i :: 0 <= i < |MOCK_STOCKS| ==> MOCK_STOCKS[i].0 == keys[i];
    forall i | 0 <= i < |keys| ensures Upper(keys[i]) == keys[i] {
      assert AllCapitals(keys[i]);
      UpperOfCapitals(keys[i]);
    }
  }

  /** The literal table is well-formed and every key is already upper case. */
  lemma MockStocksWellFormed()
    ensures WellFormed(MOCK_STOCKS)
    ensures forall i :: 0 <= i < |MOCK_STOCKS| ==> Upper(MOCK_STOCKS[i].0) == MOCK_STOCKS[i].0
  {
    MockKeysDistinct();
    MockSymbolsAreKeys();
    MockKeysUpper();
  }

  // ---------------------------------------------------------------------------
  // get_stock
  // ---------------------------------------------------------------------------

  /** `get_stock(symbol)`: the quote stored under the upper-cased symbol. */
  function GetStock(symbol: string): (r: Option<Stock>)
    ensures r.None? <==> forall i :: 0 <= i < |MOCK_STOCKS| ==> MOCK_STOCKS[i].0 != Upper(symbol)
    ensures r.Some? ==> exists i :: 0 <= i < |MOCK_STOCKS| && MOCK_STOCKS[i] == (Upper(symbol), r.value)
  {
    Lookup(MOCK_STOCKS, Upper(symbol))
  }

  /** The lookup does not depend on the case of the symbol asked for. */
  lemma GetStockCaseInsensitive(symbol: string)
    ensures GetStock(symbol) == GetStock(Upper(symbol))
  {
    UpperIdempotent(symbol);
  }

  /** Every quote of the table is found under its own symbol, in any case spelling of it. */
  lemma GetStockFindsEveryQuote(i: nat, symbol: string)
    requires i < |MOCK_STOCKS| && Upper(symbol) == MOCK_STOCKS[i].0
    ensures GetStock(symbol) == Some(MOCK_STOCKS[i].1)
  {
    MockStocksWellFormed();
    LookupEntry(MOCK_STOCKS, i);
  }

  // ---------------------------------------------------------------------------
  // search_stocks
  // ---------------------------------------------------------------------------

  /** The search test of one entry, for an already upper-cased query. */
  predicate EntryMatches(entry: (string, Stock), query: string)
  {
    Contains(entry.0, query) || Contains(Upper(entry.1.name), query)
  }

  /** The entries that pass the search test, in table order. */
  function SearchResults(t: Table, query: string): (r: seq<Stock>)
    ensures |r| <= |t|
  {
    if t == [] then []
    else
      var last := t[|t| - 1];
      SearchResults(t[..|t| - 1], query) + (if EntryMatches(last, query) then [last.1] else [])
  }

  /** `search_stocks(query)`: the loop over the table that appends every matching quote. */
  method SearchStocks(query: string) returns (results: seq<Stock>)
    ensures results == SearchResults(MOCK_STOCKS, Upper(query))
  {
    var q := Upper(query);
    results := [];
    var i := 0;
    while i < |MOCK_STOCKS|
      invariant 0 <= i <= |MOCK_STOCKS|
      invariant results == SearchResults(MOCK_STOCKS[..i], q)
    {
      var entry := MOCK_STOCKS[i];
      if Contains(entry.0, q) || Contains(Upper(entry.1.name), q) {
        results := results + [entry.1];
      }
      SearchResultsStep(MOCK_STOCKS, i, q);
      i := i + 1;
    }
    assert MOCK_STOCKS[..i] == MOCK_STOCKS;
  }

  /** One more entry of the table extends the result by that entry when it matches. */
  lemma SearchResultsStep(t: Table, i: nat, query: string)
    requires i < |t|
    ensures SearchResults(t[..i + 1], query) ==
            SearchResults(t[..i], query) + (if EntryMatches(t[i], query) then [t[i].1] else [])
  {
    assert t[..i + 1][..i] == t[..i];
  }

  /** Soundness: every result comes from an entry that passes the test. */
  lemma {:induction false} SearchSound(t: Table, query: string)
    ensures forall j :: 0 <= j < |SearchResults(t, query)| ==>
      exists i :: 0 <= i < |t| && t[i].1 == SearchResults(t, query)[j] && EntryMatches(t[i], query)
  {
    if t != [] {
      var init := t[..|t| - 1];
      SearchSound(init, query);
      var r := SearchResults(t, query);
      forall j | 0 <= j < |r|
        ensures exists i :: 0 <= i < |t| && t[i].1 == r[j] && EntryMatches(t[i], query)
      {
        assert r == SearchResults(init, query) + (if EntryMatches(t[|t| - 1], query) then [t[|t| - 1].1] else []);
        if j < |SearchResults(init, query)| {
          var i :| 0 <= i < |init| && init[i].1 == SearchResults(init, query)[j] && EntryMatches(init[i], query);
          assert t[i] == init[i];
        } else {
          assert r[j] == t[|t| - 1].1 && EntryMatches(t[|t| - 1], query);
        }
      }
      assert forall j :: 0 <= j < |r| ==> exists i :: 0 <= i < |t| && t[i].1 == r[j] && EntryMatches(t[i], query);
    } else {
      assert SearchResults(t, query) == [];
    }
  }

  /** Completeness: every entry that passes the test is among the results. */
  lemma {:induction false} SearchComplete(t: Table, query: string)
    ensures forall i :: 0 <= i < |t| && EntryMatches(t[i], query) ==> t[i].1 in SearchResults(t, query)
  {
    if t != [] {
      var init := t[..|t| - 1];
      SearchComplete(init, query);
      forall i | 0 <= i < |t| && EntryMatches(t[i], query)
        ensures t[i].1 in SearchResults(t, query)
      {
        if i < |init| {
          assert t[i] == init[i];
        }
      }
    }
  }

  /** r is obtained from s by deleting elements, keeping the order of the rest. */
  predicate IsSubsequence<T(==)>(r: seq<T>, s: seq<T>)
    decreases |s|
  {
    r == [] ||
    (s != [] &&
      ((r[|r| - 1] == s[|s| - 1] && IsSubsequence(r[..|r| - 1], s[..|s| - 1])) ||
       IsSubsequence(r, s[..|s| - 1])))
  }

  /** A subsequence of a repetition-free sequence has no repetition and is a sub-multiset of it. */
  lemma {:induction false} SubsequenceDistinct<T>(r: seq<T>, s: seq<T>)
    requires IsSubsequence(r, s) && Distinct(s)
    ensures Distinct(r) && multiset(r) <= multiset(s)
  {
    if r == [] {
    } else {
      var s' := s[..|s| - 1];
      assert s == s' + [s[|s| - 1]];
      if r[|r| - 1] == s[|s| - 1] && IsSubsequence(r[..|r| - 1], s') {
        var r' := r[..|r| - 1];
        SubsequenceDistinct(r', s');
        assert r == r' + [r[|r| - 1]];
        forall i, j | 0 <= i < j < |r| ensures r[i] != r[j] {
          if j < |r'| {
            assert r[i] == r'[i] && r[j] == r'[j];
          } else {
            assert r[i] in multiset(s');
            var k :| 0 <= k < |s'| && s'[k] == r[i];
            assert s[k] == r[i] && s[|s| - 1] == r[j];
          }
        }
      } else {
        SubsequenceDistinct(r, s');
      }
    }
  }

  /** Order: the results are the table's values with the non-matching ones deleted. */
  lemma {:induction false} SearchKeepsOrder(t: Table, query: string)
    ensures IsSubsequence(SearchResults(t, query), Values(t))
  {
    if t != [] {
      var init := t[..|t| - 1];
      var last := t[|t| - 1];
      SearchKeepsOrder(init, query);
      var r := SearchResults(t, query);
      var v := Values(t);
      assert v[..|v| - 1] == Values(init);
      if EntryMatches(last, query) {
        assert r[..|r| - 1] == SearchResults(init, query);
      } else {
        assert r == SearchResults(init, query);
      }
    }
  }

  /** Each quote of MOCK_STOCKS appears at most once in a search result. */
  lemma SearchNoDuplicates(query: string)
    ensures Distinct(SearchResults(MOCK_STOCKS, Upper(query)))
    ensures multiset(SearchResults(MOCK_STOCKS, Upper(query))) <= multiset(Values(MOCK_STOCKS))
  {
    MockStocksWellFormed();
    WellFormedValuesDistinct(MOCK_STOCKS);
    SearchKeepsOrder(MOCK_STOCKS, Upper(query));
    SubsequenceDistinct(SearchResults(MOCK_STOCKS, Upper(query)), Values(MOCK_STOCKS));
  }

  /** The empty query keeps every entry. */
  lemma {:induction false} SearchEmptyQueryIsAll(t: Table)
    ensures SearchResults(t, "") == Values(t)
  {
    if t != [] {
      SearchEmptyQueryIsAll(t[..|t| - 1]);
      EmptyContained(t[|t| - 1].0);
    }
  }

  // ---------------------------------------------------------------------------
  // get_all_stocks
  // ---------------------------------------------------------------------------

  /** `get_all_stocks()`: `list(MOCK_STOCKS.values())`. */
  function GetAllStocks(): (r: seq<Stock>)
    ensures |r| == |MOCK_STOCKS|
    ensures Distinct(r)
    ensures forall i :: 0 <= i < |MOCK_STOCKS| ==> MOCK_STOCKS[i].1 in r
  {
    MockStocksWellFormed();
    WellFormedValuesDistinct(MOCK_STOCKS);
    Values(MOCK_STOCKS)
  }

  /** `search_stocks("")` returns the same list as `get_all_stocks()`. */
  lemma SearchEmptyIsGetAll()
    ensures SearchResults(MOCK_STOCKS, Upper("")) == GetAllStocks()
  {
    SearchEmptyQueryIsAll(MOCK_STOCKS);
  }
}
