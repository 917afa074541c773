/** The publication list of the dashboard (src/Dashboard.js): turning the
    fetched CSV text into publication records, the search and filter
    predicate that decides which records are listed, and the per-category
    statistics with their top five. */
module Listing {
  import opened Seqs
  import opened Text
  import opened Dashboard

  /** One row of the publication list (the `processed: false` flag the
      source also stores is never read and is not modelled). */
  datatype Publication = Publication(
    id: int,
    title: string,
    link: string,
    category: string,
    organism: string)

  // ---------------------------------------------------------------------
  // CSV records

  function NotQuote(c: char): bool
  {
    c != '"'
  }

  /** Field `k` of a split line with every double quote removed, or the
      empty string when the line has fewer fields. */
  function Field(values: seq<string>, k: nat): (f: string)
    ensures '"' !in f
    ensures k < |values| ==> IsSubsequence(f, values[k])
    ensures k < |values| && '"' !in values[k] ==> f == values[k]
    ensures k < |values| ==> forall c :: c != '"' ==> multiset(f)[c] == multiset(values[k])[c]
    ensures k >= |values| ==> f == ""
  {
    if k < |values| then
      FilterIsSubsequence(values[k], NotQuote);
      FilterCounts(values[k], NotQuote);
      assert '"' !in values[k] ==> Filter(values[k], NotQuote) == values[k] by {
        if '"' !in values[k] {
          FilterKeepsAll(values[k], NotQuote);
        }
      }
      Filter(values[k], NotQuote)
    else ""
  }

  /** The record that one data line becomes, given its 1-based position
      among the data lines; `None` is the `null` the source drops. The
      line is split on every comma, so a quoted comma cuts the title. */
  function RecordOf(line: string, id: int): (rec: Option<Publication>)
    ensures rec.None? <==> Trim(Field(Split(line, ','), 0)) == ""
    ensures rec.Some? ==>
      var p := rec.value;
      && p.id == id
      && p.title != "" && Trim(p.title) == p.title
      && ',' !in p.title && '"' !in p.title
      && ',' !in p.link && '"' !in p.link
      && IsCategory(p.category) && IsOrganism(p.organism)
    ensures rec.Some? ==>
      var title := Field(Split(line, ','), 0);
      && rec.value.title == Trim(title)
      && rec.value.link == Trim(Field(Split(line, ','), 1))
      && rec.value.category == Categorize(title)
      && rec.value.organism == ExtractOrganism(title)
  {
    var values := Split(line, ',');
    var title := Field(values, 0);
    var link := Field(values, 1);
    if Trim(title) == "" then None
    else
      Some(Publication(id, Trim(title), Trim(link), Categorize(title), ExtractOrganism(title)))
  }

  predicate NotBlank(line: string)
  {
    Trim(line) != ""
  }

  /** The lines after the header line that hold something besides
      whitespace. */
  function DataLines(csv: string): (data: seq<string>)
    ensures forall line :: line in data ==> '\n' !in line && Trim(line) != ""
    ensures IsSubsequence(data, Split(csv, '\n')[1..])
    ensures forall line :: line in Split(csv, '\n')[1..] && Trim(line) != "" ==> line in data
    ensures forall line ::
              multiset(data)[line] == if Trim(line) != "" then multiset(Split(csv, '\n')[1..])[line] else 0
  {
    FilterIsSubsequence(Split(csv, '\n')[1..], NotBlank);
    FilterCounts(Split(csv, '\n')[1..], NotBlank);
    Filter(Split(csv, '\n')[1..], NotBlank)
  }

  /** The records that `record` makes of `data`, given the 1-based
      position of each line counted from `base + 1`, with the lines that
      give no record dropped: the `map((line, index) => ...)` followed by
      `filter(Boolean)`. */
  function Records<R>(data: seq<string>, base: int, record: (string, int) -> Option<R>): (recs: seq<R>)
    ensures |recs| <= |data|
    decreases |data|
  {
    if data == [] then []
    else
      var rest := Records(data[1..], base + 1, record);
      match record(data[0], base + 1)
      case Some(r) => [r] + rest
      case None => rest
  }

  /** `record` stamps each record with the number it is given. */
  ghost predicate Numbers<R>(record: (string, int) -> Option<R>, idOf: R -> int)
  {
    forall line, id :: record(line, id).Some? ==> idOf(record(line, id).value) == id
  }

  /** Every record kept comes from the line at its number. */
  lemma {:induction false} RecordsSound<R>(data: seq<string>, base: int, record: (string, int) -> Option<R>, idOf: R -> int)
    requires Numbers(record, idOf)
    ensures forall k :: 0 <= k < |Records(data, base, record)| ==>
      base < idOf(Records(data, base, record)[k]) <= base + |data|
    ensures forall k :: 0 <= k < |Records(data, base, record)| ==>
      record(data[idOf(Records(data, base, record)[k]) - base - 1], idOf(Records(data, base, record)[k]))
      == Some(Records(data, base, record)[k])
    decreases |data|
  {
    if data != [] {
      RecordsSound(data[1..], base + 1, record, idOf);
      var rest := Records(data[1..], base + 1, record);
      var recs := Records(data, base, record);
      var head := record(data[0], base + 1);
      assert recs == if head.Some? then [head.value] + rest else rest;
      forall k | 0 <= k < |recs|
        ensures base < idOf(recs[k]) <= base + |data|
        ensures record(data[idOf(recs[k]) - base - 1], idOf(recs[k])) == Some(recs[k])
      {
        if head.Some? && k == 0 {
        } else {
          var j := if head.Some? then k - 1 else k;
          assert recs[k] == rest[j];
          assert data[idOf(recs[k]) - base - 1] == data[1..][idOf(rest[j]) - (base + 1) - 1];
        }
      }
    }
  }

  /** The records keep the order of their lines. */
  lemma {:induction false} RecordsOrdered<R>(data: seq<string>, base: int, record: (string, int) -> Option<R>, idOf: R -> int)
    requires Numbers(record, idOf)
    ensures forall i, j :: 0 <= i < j < |Records(data, base, record)| ==>
      idOf(Records(data, base, record)[i]) < idOf(Records(data, base, record)[j])
    decreases |data|
  {
    if data != [] {
      RecordsOrdered(data[1..], base + 1, record, idOf);
      RecordsSound(data[1..], base + 1, record, idOf);
      var rest := Records(data[1..], base + 1, record);
      var head := record(data[0], base + 1);
      assert Records(data, base, record) == if head.Some? then [head.value] + rest else rest;
    }
  }

  /** No line that gives a record is dropped. */
  lemma {:induction false} RecordsComplete<R>(data: seq<string>, base: int, record: (string, int) -> Option<R>)
    ensures forall i :: 0 <= i < |data| && record(data[i], base + i + 1).Some? ==>
      record(data[i], base + i + 1).value in Records(data, base, record)
    decreases |data|
  {
    if data != [] {
      RecordsComplete(data[1..], base + 1, record);
      var rest := Records(data[1..], base + 1, record);
      var head := record(data[0], base + 1);
      assert Records(data, base, record) == if head.Some? then [head.value] + rest else rest;
      forall i | 1 <= i < |data| ensures data[i] == data[1..][i - 1] {}
    }
  }

  function IdOf(p: Publication): int
  {
    p.id
  }

  /** A record carries the number it was made with. */
  lemma RecordOfNumbers()
    ensures Numbers(RecordOf, IdOf)
  {
  }

  /** Every record `record` makes has a non-empty, trimmed title. */
  ghost predicate GivesTitled(record: (string, int) -> Option<Publication>)
  {
    forall line, id :: record(line, id).Some? ==>
      record(line, id).value.title != "" && Trim(record(line, id).value.title) == record(line, id).value.title
  }

  lemma RecordOfTitled()
    ensures GivesTitled(RecordOf)
  {
  }

  /** Titles stay non-empty and trimmed through `Records`. */
  lemma {:induction false} RecordsTitled(data: seq<string>, base: int, record: (string, int) -> Option<Publication>)
    requires GivesTitled(record)
    ensures forall p :: p in Records(data, base, record) ==> p.title != "" && Trim(p.title) == p.title
    decreases |data|
  {
    if data != [] {
      RecordsTitled(data[1..], base + 1, record);
      var rest := Records(data[1..], base + 1, record);
      var head := record(data[0], base + 1);
      assert Records(data, base, record) == if head.Some? then [head.value] + rest else rest;
    }
  }

  /** The publications loaded from the CSV text: one per non-blank data
      line whose first field is not blank, numbered by the line's position
      among the non-blank data lines. */
  function ParseCsv(csv: string): (pubs: seq<Publication>)
  {
    Records(DataLines(csv), 0, RecordOf)
  }

  /** Every loaded title is non-empty and trimmed. */
  lemma ParsedTitles(csv: string)
    ensures forall p :: p in ParseCsv(csv) ==> p.title != "" && Trim(p.title) == p.title
  {
    RecordOfTitled();
    RecordsTitled(DataLines(csv), 0, RecordOf);
  }

  /** The ids of the loaded publications grow strictly from 1 and never
      pass the number of data lines. */
  lemma ParsedIds(csv: string)
    ensures forall i :: 0 <= i < |ParseCsv(csv)| ==> 0 < ParseCsv(csv)[i].id <= |DataLines(csv)|
    ensures forall i, j :: 0 <= i < j < |ParseCsv(csv)| ==> ParseCsv(csv)[i].id < ParseCsv(csv)[j].id
  {
    RecordOfNumbers();
    RecordsSound(DataLines(csv), 0, RecordOf, IdOf);
    RecordsOrdered(DataLines(csv), 0, RecordOf, IdOf);
  }

  /** Only the first line is taken as the header, whatever it says. */
  lemma HeaderIgnored(header: string, otherHeader: string, body: string)
    requires '\n' !in header && '\n' !in otherHeader
    ensures ParseCsv(header + "\n" + body) == ParseCsv(otherHeader + "\n" + body)
  {
    IndexOfAfterFree(header, '\n', body);
    IndexOfAfterFree(otherHeader, '\n', body);
    assert (header + "\n" + body)[|header| + 1..] == body;
    assert (otherHeader + "\n" + body)[|otherHeader| + 1..] == body;
    assert Split(header + "\n" + body, '\n')[1..] == Split(body, '\n');
    assert Split(otherHeader + "\n" + body, '\n')[1..] == Split(body, '\n');
  }

  /** A text of one line is all header and yields no publications. */
  lemma HeaderOnly(csv: string)
    requires '\n' !in csv
    ensures ParseCsv(csv) == []
  {
    assert Split(csv, '\n')[1..] == [];
  }

  // ---------------------------------------------------------------------
  // Search and filters

  /** The two drop-down filters; "all" switches a filter off. */
  datatype Filters = Filters(category: string, organism: string)

  /** Whether a publication is listed for a search text and filters. */
  predicate Shown(p: Publication, searchTerm: string, filters: Filters)
  {
    && p.title != ""
    && (searchTerm == "" || Contains(Lower(p.title), Lower(searchTerm)))
    && (filters.category == "all" || p.category == filters.category)
    && (filters.organism == "all" || p.organism == filters.organism)
  }

  function ShownBy(searchTerm: string, filters: Filters): Publication -> bool
  {
    (p: Publication) => Shown(p, searchTerm, filters)
  }

  /** The listed publications: those shown, in the order loaded. */
  function FilteredPublications(publications: seq<Publication>, searchTerm: string, filters: Filters): (listed: seq<Publication>)
    ensures IsSubsequence(listed, publications)
    ensures forall p :: p in listed <==> p in publications && Shown(p, searchTerm, filters)
    ensures forall p ::
              multiset(listed)[p] == if Shown(p, searchTerm, filters) then multiset(publications)[p] else 0
  {
    FilterIsSubsequence(publications, ShownBy(searchTerm, filters));
    FilterCounts(publications, ShownBy(searchTerm, filters));
    Filter(publications, ShownBy(searchTerm, filters))
  }

  /** The search ignores case in the search text as well as in the title. */
  lemma SearchIgnoresCase(publications: seq<Publication>, searchTerm: string, filters: Filters)
    ensures FilteredPublications(publications, Lower(searchTerm), filters)
         == FilteredPublications(publications, searchTerm, filters)
  {
    LowerIdempotent(searchTerm);
    assert Lower(searchTerm) == "" <==> searchTerm == "";
    FilterCongruent(publications, ShownBy(Lower(searchTerm), filters), ShownBy(searchTerm, filters));
  }

  /** With no search text and both filters at "all", every publication
      that has a title is listed, in order. */
  lemma NoFilterListsTitled(publications: seq<Publication>)
    ensures FilteredPublications(publications, "", Filters("all", "all"))
         == Filter(publications, (p: Publication) => p.title != "")
  {
    FilterCongruent(publications, ShownBy("", Filters("all", "all")), (p: Publication) => p.title != "");
  }

  /** Every loaded publication has a title, so with no search text and no
      filter the list is exactly what was loaded. */
  lemma NoFilterListsAllLoaded(csv: string)
    ensures FilteredPublications(ParseCsv(csv), "", Filters("all", "all")) == ParseCsv(csv)
  {
    ParsedTitles(csv);
    FilterKeepsAll(ParseCsv(csv), ShownBy("", Filters("all", "all")));
  }

  // ---------------------------------------------------------------------
  // Category statistics

  function CategoryOf(p: Publication): string
  {
    p.category
  }

  /** How many times `c` occurs in `cs`. */
  function Count(cs: seq<string>, c: string): nat
  {
    if cs == [] then 0
    else Count(cs[..|cs| - 1], c) + (if cs[|cs| - 1] == c then 1 else 0)
  }

  /** The distinct values of `cs` in order of first appearance: the key
      order of an object filled by assignment. */
  function FirstOccurrences(cs: seq<string>): (keys: seq<string>)
    ensures forall i, j :: 0 <= i < j < |keys| ==> keys[i] != keys[j]
    ensures forall c :: c in keys <==> c in cs
  {
    if cs == [] then []
    else
      var keys := FirstOccurrences(cs[..|cs| - 1]);
      assert forall c :: c in cs <==> c in cs[..|cs| - 1] || c == cs[|cs| - 1] by {
        assert cs == cs[..|cs| - 1] + [cs[|cs| - 1]];
      }
      if cs[|cs| - 1] in keys then keys else keys + [cs[|cs| - 1]]
  }

  /** `keys` come in order of first appearance in `cs`: where an earlier
      key first shows up, no later key has shown up yet. */
  ghost predicate InFirstAppearanceOrder(keys: seq<string>, cs: seq<string>)
  {
    forall i, j :: 0 <= i < j < |keys| ==>
      exists p :: 0 <= p < |cs| && cs[p] == keys[i] && keys[j] !in cs[..p + 1]
  }

  lemma {:induction false} FirstOccurrencesOrdered(cs: seq<string>)
    ensures InFirstAppearanceOrder(FirstOccurrences(cs), cs)
  {
    if cs != [] {
      var init := cs[..|cs| - 1];
      var x := cs[|cs| - 1];
      var prev := FirstOccurrences(init);
      var keys := FirstOccurrences(cs);
      FirstOccurrencesOrdered(init);
      forall i, j | 0 <= i < j < |keys|
        ensures exists p :: 0 <= p < |cs| && cs[p] == keys[i] && keys[j] !in cs[..p + 1]
      {
        assert keys[i] in init;
        var p: nat;
        if j < |prev| {
          assert keys[i] == prev[i] && keys[j] == prev[j];
          p :| 0 <= p < |init| && init[p] == prev[i] && prev[j] !in init[..p + 1];
        } else {
          p :| 0 <= p < |init| && init[p] == keys[i];
          assert x !in init;
        }
        assert cs[..p + 1] == init[..p + 1];
        assert cs[p] == keys[i] && keys[j] !in cs[..p + 1];
      }
    }
  }

  /** Each key paired with its number of occurrences. */
  function Tally(keys: seq<string>, cs: seq<string>): (entries: seq<(string, nat)>)
  {
    seq(|keys|, i requires 0 <= i < |keys| => (keys[i], Count(cs, keys[i])))
  }

  /** The total of the counts of `entries`. */
  function SumCounts(entries: seq<(string, nat)>): nat
  {
    if entries == [] then 0 else SumCounts(entries[..|entries| - 1]) + entries[|entries| - 1].1
  }

  /** `Object.entries` of the per-category counts: the categories in order
      of first appearance, each with the number of publications in it. */
  method CategoryStats(publications: seq<Publication>) returns (entries: seq<(string, nat)>)
    ensures entries == Tally(FirstOccurrences(Map(publications, CategoryOf)), Map(publications, CategoryOf))
  {
    ghost var cats := Map(publications, CategoryOf);
    var counts: map<string, nat> := map[];
    var keys: seq<string> := [];
    for i := 0 to |publications|
      invariant Counted(cats[..i], counts, keys)
    {
      var c := publications[i].category;
      CountedStep(cats[..i], counts, keys, c);
      assert cats[..i + 1] == cats[..i] + [c];
      if c in counts {
        counts := counts[c := counts[c] + 1];
      } else {
        counts := counts[c := 1];
        keys := keys + [c];
      }
    }
    assert cats[..|publications|] == cats;
    CountedEntries(cats, counts, keys);
    entries := Entries(counts, keys);
  }

  /** `Object.entries(counts)`, with `keys` the key order of the object. */
  function Entries(counts: map<string, nat>, keys: seq<string>): (entries: seq<(string, nat)>)
    requires forall c :: c in keys ==> c in counts
  {
    seq(|keys|, k requires 0 <= k < |keys| => (keys[k], counts[keys[k]]))
  }

  /** The entries of a finished count are the tally of the values. */
  lemma CountedEntries(cs: seq<string>, counts: map<string, nat>, keys: seq<string>)
    requires Counted(cs, counts, keys)
    ensures Entries(counts, keys) == Tally(FirstOccurrences(cs), cs)
  {
  }

  /** The accumulator after counting `cs`: `keys` lists the values in
      order of first appearance, and `counts` maps each to its count. */
  ghost predicate Counted(cs: seq<string>, counts: map<string, nat>, keys: seq<string>)
  {
    && keys == FirstOccurrences(cs)
    && (forall c :: c in counts <==> c in keys)
    && (forall c :: c in counts ==> counts[c] == Count(cs, c))
  }

  /** One step of the `reduce`: counting one more value keeps the
      accumulator right. */
  lemma CountedStep(cs: seq<string>, counts: map<string, nat>, keys: seq<string>, x: string)
    requires Counted(cs, counts, keys)
    ensures x in counts ==> Counted(cs + [x], counts[x := counts[x] + 1], keys)
    ensures x !in counts ==> Counted(cs + [x], counts[x := 1], keys + [x])
  {
    assert (cs + [x])[..|cs|] == cs;
    assert FirstOccurrences(cs + [x]) == if x in keys then keys else keys + [x];
    var counts' := if x in counts then counts[x := counts[x] + 1] else counts[x := 1];
    forall c | c in counts' ensures counts'[c] == Count(cs + [x], c) {
      CountAppend(cs, x, c);
      if c == x && x !in counts {
        CountAbsent(cs, x);
      }
    }
  }

  /** Adding one more value at the end raises its count by one. */
  lemma {:induction false} CountAppend(cs: seq<string>, x: string, c: string)
    ensures Count(cs + [x], c) == Count(cs, c) + (if x == c then 1 else 0)
  {
    assert (cs + [x])[..|cs|] == cs;
  }

  /** A value that does not occur is counted zero times. */
  lemma {:induction false} CountAbsent(cs: seq<string>, c: string)
    requires c !in cs
    ensures Count(cs, c) == 0
  {
    if cs != [] {
      assert c !in cs[..|cs| - 1];
      CountAbsent(cs[..|cs| - 1], c);
    }
  }

  /** The counts of the distinct values, summed, give the length. */
  lemma {:induction false} TallySum(cs: seq<string>)
    ensures SumCounts(Tally(FirstOccurrences(cs), cs)) == |cs|
  {
    if cs != [] {
      var prefix := cs[..|cs| - 1];
      var x := cs[|cs| - 1];
      assert cs == prefix + [x];
      var keys := FirstOccurrences(prefix);
      TallySum(prefix);
      TallyShift(keys, prefix, x);
      if x !in keys {
        CountAbsent(prefix, x);
        CountAppend(prefix, x, x);
        assert Tally(keys + [x], cs) == Tally(keys, cs) + [(x, Count(cs, x))];
        assert Tally(keys + [x], cs)[..|keys|] == Tally(keys, cs);
      }
    }
  }

  /** Tallying `prefix + [x]` over distinct keys adds one to the total
      exactly when `x` is one of the keys. */
  lemma {:induction false} TallyShift(keys: seq<string>, prefix: seq<string>, x: string)
    requires forall i, j :: 0 <= i < j < |keys| ==> keys[i] != keys[j]
    ensures SumCounts(Tally(keys, prefix + [x])) == SumCounts(Tally(keys, prefix)) + (if x in keys then 1 else 0)
    decreases |keys|
  {
    if keys != [] {
      var init := keys[..|keys| - 1];
      var last := keys[|keys| - 1];
      assert keys == init + [last];
      TallyShift(init, prefix, x);
      assert Tally(keys, prefix + [x])[..|init|] == Tally(init, prefix + [x]);
      assert Tally(keys, prefix)[..|init|] == Tally(init, prefix);
      CountAppend(prefix, x, last);
      assert x in keys <==> x in init || x == last;
      assert x == last ==> x !in init;
    }
  }

  /** Every publication is counted in exactly one category. */
  lemma StatsCountEveryPublication(publications: seq<Publication>)
    ensures SumCounts(Tally(FirstOccurrences(Map(publications, CategoryOf)), Map(publications, CategoryOf)))
         == |publications|
  {
    TallySum(Map(publications, CategoryOf));
  }

  // ---------------------------------------------------------------------
  // Top categories

  ghost predicate SortedByCount(s: seq<(string, nat)>)
  {
    forall i, j :: 0 <= i < j < |s| ==> s[i].1 >= s[j].1
  }

  /** Inserts `e` after every entry whose count is at least its own. */
  function InsertByCount(e: (string, nat), s: seq<(string, nat)>): (r: seq<(string, nat)>)
    ensures |r| == |s| + 1
    ensures r[0] == e || (s != [] && r[0] == s[0])
  {
    if s == [] then [e]
    else if s[0].1 >= e.1 then [s[0]] + InsertByCount(e, s[1..])
    else [e] + s
  }

  lemma ConsPermutation<T>(x: T, s: seq<T>)
    ensures multiset([x] + s) == multiset(s) + multiset{x}
  {
  }

  /** Inserting adds `e` and loses nothing. */
  lemma {:induction false} InsertIsPermutation(e: (string, nat), s: seq<(string, nat)>)
    ensures multiset(InsertByCount(e, s)) == multiset(s) + multiset{e}
  {
    if s == [] {
    } else if s[0].1 >= e.1 {
      var head, tail := s[0], s[1..];
      var rest := InsertByCount(e, tail);
      InsertIsPermutation(e, tail);
      assert InsertByCount(e, s) == [head] + rest;
      ConsPermutation(head, rest);
      assert s == [head] + tail;
      ConsPermutation(head, tail);
    } else {
      assert InsertByCount(e, s) == [e] + s;
      ConsPermutation(e, s);
    }
  }

  lemma {:induction false} InsertKeepsSorted(e: (string, nat), s: seq<(string, nat)>)
    requires SortedByCount(s)
    ensures SortedByCount(InsertByCount(e, s))
  {
    if s != [] && s[0].1 >= e.1 {
      var rest := InsertByCount(e, s[1..]);
      InsertKeepsSorted(e, s[1..]);
      assert InsertByCount(e, s) == [s[0]] + rest;
      assert rest[0] == e || rest[0] == s[1];
    }
  }

  /** The entries by descending count; entries with equal counts keep
      their order, as in the stable sort of the engine. */
  function SortByCount(s: seq<(string, nat)>): (r: seq<(string, nat)>)
    ensures |r| == |s|
    ensures SortedByCount(r)
  {
    if s == [] then []
    else
      InsertKeepsSorted(s[|s| - 1], SortByCount(s[..|s| - 1]));
      InsertByCount(s[|s| - 1], SortByCount(s[..|s| - 1]))
  }

  /** Sorting only reorders the entries. */
  lemma {:induction false} SortIsPermutation(s: seq<(string, nat)>)
    ensures multiset(SortByCount(s)) == multiset(s)
  {
    if s != [] {
      var init, last := s[..|s| - 1], s[|s| - 1];
      var sortedInit := SortByCount(init);
      SortIsPermutation(init);
      InsertIsPermutation(last, sortedInit);
      assert SortByCount(s) == InsertByCount(last, sortedInit);
      assert s == init + [last];
      assert multiset(s) == multiset(init) + multiset([last]);
    }
  }

  function HasCount(n: nat): ((string, nat)) -> bool
  {
    (e: (string, nat)) => e.1 == n
  }

  lemma SortedTail(s: seq<(string, nat)>)
    requires s != [] && SortedByCount(s)
    ensures SortedByCount(s[1..])
  {
    forall i, j | 0 <= i < j < |s[1..]| ensures s[1..][i].1 >= s[1..][j].1 {
      assert s[1..][i] == s[i + 1] && s[1..][j] == s[j + 1];
    }
  }

  /** An entry with a count above every count in a sorted list goes in
      front, so no entry of its count precedes it. */
  lemma InsertInFront(e: (string, nat), s: seq<(string, nat)>, n: nat)
    requires SortedByCount(s)
    requires s == [] || s[0].1 < e.1
    ensures Filter(InsertByCount(e, s), HasCount(n)) == Filter(s, HasCount(n)) + (if e.1 == n then [e] else [])
  {
    assert InsertByCount(e, s) == [e] + s;
    FilterCons(e, s, HasCount(n));
    if e.1 == n {
      FilterKeepsNone(s, HasCount(n));
    }
  }

  /** Inserting lands `e` after every entry with its count. */
  lemma {:induction false} InsertAfterEqual(e: (string, nat), s: seq<(string, nat)>, n: nat)
    requires SortedByCount(s)
    ensures Filter(InsertByCount(e, s), HasCount(n)) == Filter(s, HasCount(n)) + (if e.1 == n then [e] else [])
  {
    if s == [] || s[0].1 < e.1 {
      InsertInFront(e, s, n);
    } else {
      SortedTail(s);
      InsertAfterEqual(e, s[1..], n);
      var head, tail := s[0], s[1..];
      assert InsertByCount(e, s) == [head] + InsertByCount(e, tail);
      FilterConsAppend(head, InsertByCount(e, tail), tail, if e.1 == n then [e] else [], HasCount(n));
      assert s == [head] + tail;
    }
  }

  /** The sort is stable: the entries of any one count come out in the
      order they went in. */
  lemma {:induction false} SortIsStable(s: seq<(string, nat)>, n: nat)
    ensures Filter(SortByCount(s), HasCount(n)) == Filter(s, HasCount(n))
  {
    if s != [] {
      var init := s[..|s| - 1];
      var last := s[|s| - 1];
      SortIsStable(init, n);
      InsertAfterEqual(last, SortByCount(init), n);
      assert s == init + [last];
      FilterSnoc(init, last, HasCount(n));
    }
  }

  /** The five entries with the highest counts, highest first. */
  function TopCategories(entries: seq<(string, nat)>): (top: seq<(string, nat)>)
    ensures |top| <= 5
  {
    Take(SortByCount(entries), 5)
  }

  /** The top list holds as many entries as there are, up to five, by
      descending count, each taken from the entries. */
  lemma TopCategoriesShape(entries: seq<(string, nat)>)
    ensures |TopCategories(entries)| == if |entries| < 5 then |entries| else 5
    ensures SortedByCount(TopCategories(entries))
    ensures multiset(TopCategories(entries)) <= multiset(entries)
  {
    var sorted := SortByCount(entries);
    var top := TopCategories(entries);
    SortIsPermutation(entries);
    assert sorted == top + sorted[|top|..];
    assert multiset(sorted) == multiset(top) + multiset(sorted[|top|..]);
  }

  /** No entry left out of the top list has a higher count than one kept. */
  lemma TopCategoriesAreHighest(entries: seq<(string, nat)>)
    ensures forall e, t :: e in entries && e !in TopCategories(entries) && t in TopCategories(entries) ==> e.1 <= t.1
  {
    var sorted := SortByCount(entries);
    var top := TopCategories(entries);
    SortIsPermutation(entries);
    assert top == sorted[..|top|];
    forall e, t | e in entries && e !in top && t in top ensures e.1 <= t.1 {
      assert e in sorted by {
        assert e in multiset(entries);
      }
      var i :| 0 <= i < |sorted| && sorted[i] == e;
      var j :| 0 <= j < |top| && top[j] == t;
      assert i >= |top|;
    }
  }
}
