/**
 * The logic of the transaction endpoints that does not belong to the
 * database driver or the web framework: rewriting fetched documents for
 * serialisation, pagination, the query filters and aggregation pipelines
 * the endpoints send, and the export endpoint's archive stream.
 */
module TransactionRouter {
  import opened Wrappers
  import opened Chunking
  import opened Text
  import opened FileSystem
  import opened Enums
  import opened TransactionModel
  import opened CsvExport

  // ---------------------------------------------------------------- documents

  /** A value held by a field of a fetched document. */
  datatype Value =
    | ObjectId(hex: string)
    | StrValue(s: string)
    | OtherValue(text: string)

  /** `str(v)`: an ObjectId prints as its hex digits, a string as itself, any other value as its `str()` text. */
  function Str(v: Value): (s: string)
    ensures v.StrValue? ==> s == v.s
  {
    match v
    case ObjectId(hex) => hex
    case StrValue(s) => s
    case OtherValue(text) => text
  }

  /** A document returned by the driver: a dictionary the router updates in place. */
  class Document {
    var fields: map<string, Value>

    constructor (fields: map<string, Value>)
      ensures this.fields == fields
    {
      this.fields := fields;
    }
  }

  /** The fields of a document whose `_id` has been replaced by its string form. */
  function WithStringId(fields: map<string, Value>): (m: map<string, Value>)
    requires "_id" in fields
    ensures m.Keys == fields.Keys
    ensures m["_id"] == StrValue(Str(fields["_id"]))
    ensures forall k :: k in fields && k != "_id" ==> m[k] == fields[k]
  {
    fields["_id" := StrValue(Str(fields["_id"]))]
  }

  /** Converting an already converted document changes nothing. */
  lemma WithStringIdIdempotent(fields: map<string, Value>)
    requires "_id" in fields
    ensures WithStringId(WithStringId(fields)) == WithStringId(fields)
  {
    assert Str(StrValue(Str(fields["_id"]))) == Str(fields["_id"]);
  }

  /** `doc["_id"]` on a document without that key. */
  datatype KeyError = KeyError(key: string)

  /**
   * `convert_docs_to_dict`: walks the documents in order, replacing each
   * `_id` by its string form in place, and returns the same documents in
   * the same order. The first document without an `_id` raises, leaving
   * the documents before it converted and the rest untouched; `stop` is
   * where the walk ended. A document listed twice is converted once in
   * effect.
   */
  method ConvertDocsToDict(docs: seq<Document>) returns (r: Result<seq<Document>, KeyError>, ghost stop: nat)
    modifies docs
    ensures stop <= |docs|
    ensures forall i :: 0 <= i < stop ==> "_id" in old(docs[i].fields)
    ensures r.Ok? <==> stop == |docs|
    ensures r.Ok? ==> r.value == docs
    ensures r.Err? ==> r.error == KeyError("_id") && "_id" !in old(docs[stop].fields)
    ensures forall i :: 0 <= i < |docs| ==>
      if docs[i] in docs[..stop] then "_id" in old(docs[i].fields) && docs[i].fields == WithStringId(old(docs[i].fields))
      else docs[i].fields == old(docs[i].fields)
  {
    var converted: seq<Document> := [];
    var i := 0;
    while i < |docs|
      invariant i <= |docs| && converted == docs[..i]
      invariant forall j :: 0 <= j < i ==> "_id" in old(docs[j].fields)
      invariant forall j :: 0 <= j < |docs| ==>
        if docs[j] in docs[..i] then "_id" in old(docs[j].fields) && docs[j].fields == WithStringId(old(docs[j].fields))
        else docs[j].fields == old(docs[j].fields)
    {
      var doc := docs[i];
      if "_id" !in doc.fields {
        return Err(KeyError("_id")), i;
      }
      if doc in docs[..i] {
        WithStringIdIdempotent(old(doc.fields));
      }
      doc.fields := doc.fields["_id" := StrValue(Str(doc.fields["_id"]))];
      converted := converted + [doc];
      assert docs[..i + 1] == docs[..i] + [doc];
      i := i + 1;
    }
    assert docs[..i] == docs;
    return Ok(converted), i;
  }

  // ---------------------------------------------------------------- pagination

  /**
   * `math.ceil(total / limit)` for a non-zero limit, as the least integer
   * not below the exact quotient.
   */
  function CeilQuotient(total: nat, limit: int): (q: int)
    requires limit != 0
    ensures limit > 0 ==> (q - 1) * limit < total <= q * limit
    ensures limit < 0 ==> q * limit <= total < (q - 1) * limit
  {
    if limit > 0 then
      var q := CeilDiv(total, limit);
      MulPred(q, limit);
      q
    else
      FloorOverNegative(total, limit);
      -(total / -limit)
  }

  /** One piece fewer of size `n` holds `n` items fewer. */
  lemma MulPred(q: int, n: int)
    ensures (q - 1) * n == q * n - n
  {
  }

  /** Flooring `total / -limit` and negating it rounds `total / limit` up when `limit` is negative. */
  lemma FloorOverNegative(total: nat, limit: int)
    requires limit < 0
    ensures var q := -(total / -limit);
      q * limit <= total < (q - 1) * limit
  {
    var m := -limit;
    var f := total / m;
    assert f * m <= total < f * m + m;
    assert -f * limit == f * m;
    assert (-f - 1) * limit == f * m + m;
  }

  /** Why `build_paginated_response` raises: a positive total over a limit of 0. */
  datatype PageError = ZeroDivision

  /**
   * `build_paginated_response`: echoes the page it is given and adds the
   * number of pages, 0 for an empty collection and otherwise the ceiling of
   * `total / limit`.
   */
  function BuildPaginatedResponse<T>(items: seq<T>, total: nat, page: int, limit: int)
    : (r: Result<PaginatedResponse<T>, PageError>)
    ensures r.Err? <==> total > 0 && limit == 0
    ensures r.Ok? ==>
      && r.value.items == items && r.value.total == total
      && r.value.page == page && r.value.limit == limit
    ensures r.Ok? && total == 0 ==> r.value.totalPages == 0
    ensures r.Ok? && total > 0 && limit > 0 ==>
      r.value.totalPages > 0 && (r.value.totalPages - 1) * limit < total <= r.value.totalPages * limit
    ensures r.Ok? && total > 0 && limit < 0 ==>
      r.value.totalPages * limit <= total < (r.value.totalPages - 1) * limit
  {
    if total > 0 && limit == 0 then Err(ZeroDivision)
    else
      var totalPages := if total > 0 then CeilQuotient(total, limit) else 0;
      Ok(PaginatedResponse(items, total, page, limit, totalPages))
  }

  /** `skip = (page - 1) * limit`: how many items come before page `page`. */
  function Skip(page: int, limit: int): (s: int)
    ensures page >= 1 && limit >= 0 ==> s >= 0
    ensures page == 1 ==> s == 0
  {
    (page - 1) * limit
  }

  /** `find(...).skip(skip).limit(limit)` over the matching items in their stored order. */
  function PageOf<T>(all: seq<T>, skip: nat, limit: nat): (items: seq<T>)
    ensures |items| == if skip >= |all| then 0 else if |all| - skip < limit then |all| - skip else limit
  {
    var start := if skip <= |all| then skip else |all|;
    var end := if start + limit <= |all| then start + limit else |all|;
    all[start..end]
  }

  /** Item `i` of a page is item `skip + i` of the matches. */
  lemma PageOfItems<T>(all: seq<T>, skip: nat, limit: nat, i: nat)
    requires i < |PageOf(all, skip, limit)|
    ensures skip + i < |all| && PageOf(all, skip, limit)[i] == all[skip + i]
  {
  }

  /**
   * With `page, limit >= 1` (both endpoints validate this), page `page`
   * holds the `page`-th block of `limit` consecutive items; the pages
   * 1..totalPages are exactly those blocks, and every later page is empty.
   */
  lemma PageIsBlock<T>(all: seq<T>, page: int, limit: int)
    requires page >= 1 && limit >= 1
    ensures Skip(page, limit) >= 0
    ensures var r := BuildPaginatedResponse(PageOf(all, Skip(page, limit), limit), |all|, page, limit);
      && r.Ok?
      && r.value.totalPages == |Chunks(all, limit)|
      && PageOf(all, Skip(page, limit), limit)
         == if page <= r.value.totalPages then Chunks(all, limit)[page - 1] else []
  {
    MulMonotone(0, page - 1, limit);
    TotalPagesCountsBlocks(PageOf(all, Skip(page, limit), limit), all, page, limit);
    PageBlock(all, page, limit);
  }

  /** The number of pages is the number of blocks of `limit` items. */
  lemma TotalPagesCountsBlocks<T, U>(items: seq<U>, all: seq<T>, page: int, limit: int)
    requires limit >= 1
    ensures var r := BuildPaginatedResponse(items, |all|, page, limit);
      r.Ok? && r.value.totalPages == |Chunks(all, limit)|
  {
    ChunksCount(all, limit);
  }

  /** The items `find().skip((page - 1) * limit).limit(limit)` returns form the `page`-th block. */
  lemma PageBlock<T>(all: seq<T>, page: int, limit: int)
    requires page >= 1 && limit >= 1
    ensures (page - 1) * limit >= 0
    ensures PageOf(all, (page - 1) * limit, limit)
      == if page <= |Chunks(all, limit)| then Chunks(all, limit)[page - 1] else []
  {
    MulMonotone(0, page - 1, limit);
    var n := |Chunks(all, limit)|;
    ChunksCount(all, limit);
    if page <= n {
      ChunkAt(all, limit, page - 1);
    } else {
      MulMonotone(n, page - 1, limit);
    }
  }

  /** Multiplying by a non-negative factor keeps the order. */
  lemma MulMonotone(a: int, b: int, c: int)
    requires a <= b && c >= 0
    ensures a * c <= b * c
  {
    assert b * c - a * c == (b - a) * c;
  }

  /** Reading pages 1..totalPages in turn returns every item once, in order. */
  lemma PagesCoverAll<T>(all: seq<T>, limit: int)
    requires limit >= 1
    ensures var r := BuildPaginatedResponse(PageOf(all, 0, limit), |all|, 1, limit);
      && r.Ok?
      && Flatten(seq(r.value.totalPages, p requires 0 <= p < r.value.totalPages => PageOf(all, Skip(p + 1, limit), limit))) == all
  {
    var r := BuildPaginatedResponse(PageOf(all, 0, limit), |all|, 1, limit);
    PageIsBlock(all, 1, limit);
    var pages := seq(r.value.totalPages, p requires 0 <= p < r.value.totalPages => PageOf(all, Skip(p + 1, limit), limit));
    forall p | 0 <= p < |pages|
      ensures pages[p] == Chunks(all, limit)[p]
    {
      PageIsBlock(all, p + 1, limit);
    }
    assert pages == Chunks(all, limit);
    ChunksFlatten(all, limit);
  }

  // ---------------------------------------------------------------- filters

  /** The condition a filter puts on one field. */
  datatype Condition =
    | Equals(text: string)
    | AtLeast(bound: real)
    | OneOf(values: seq<string>)

  /** One key of a filter document and its condition. */
  datatype Clause = Clause(key: string, cond: Condition)

  /** A filter document, its keys in insertion order. */
  type Filter = seq<Clause>

  /** `filter.get(key)`. */
  function Get(f: Filter, key: string): Option<Condition>
  {
    if |f| == 0 then None
    else if f[0].key == key then Some(f[0].cond)
    else Get(f[1..], key)
  }

  /** The fields of a stored transaction a filter can test. */
  datatype StoredDoc = StoredDoc(currency: string, amount: real, category: Option<string>)

  /** The string a document holds under `key`, if any. */
  function TextField(d: StoredDoc, key: string): Option<string>
  {
    if key == "currency" then Some(d.currency)
    else if key == "category" then d.category
    else None
  }

  /** Whether a document meets one clause, as the database evaluates it. */
  predicate Holds(d: StoredDoc, c: Clause)
  {
    match c.cond
    case Equals(s) => TextField(d, c.key) == Some(s)
    case AtLeast(b) => c.key == "amount" && d.amount >= b
    case OneOf(vs) => TextField(d, c.key).Some? && TextField(d, c.key).value in vs
  }

  /** Whether a document meets every clause of a filter. */
  predicate Matches(d: StoredDoc, f: Filter)
  {
    forall i :: 0 <= i < |f| ==> Holds(d, f[i])
  }

  /** The empty filter matches every document. */
  lemma MatchesEmpty()
    ensures forall d :: Matches(d, [])
  {
  }

  /** A clause added to a filter narrows it by exactly that clause. */
  lemma MatchesAppend(f: Filter, c: Clause)
    ensures forall d :: Matches(d, f + [c]) <==> Matches(d, f) && Holds(d, c)
  {
    forall d
      ensures Matches(d, f + [c]) <==> Matches(d, f) && Holds(d, c)
    {
      if Matches(d, f) && Holds(d, c) {
        forall i | 0 <= i < |f + [c]|
          ensures Holds(d, (f + [c])[i])
        {
          if i < |f| {
            assert (f + [c])[i] == f[i];
          }
        }
      }
      if Matches(d, f + [c]) {
        assert Holds(d, (f + [c])[|f|]);
        forall i | 0 <= i < |f|
          ensures Holds(d, f[i])
        {
          assert (f + [c])[i] == f[i];
        }
      }
    }
  }

  /**
   * The filter of `search_transactions`: a `category` key exactly when a
   * category is given and an `amount >= minAmount` key exactly when a
   * minimum is given, so that a document matches when it has that category
   * and at least that amount.
   */
  method SearchFilter(category: Option<string>, minAmount: Option<real>) returns (f: Filter)
    ensures Get(f, "category") == if category.Some? then Some(Equals(category.value)) else None
    ensures Get(f, "amount") == if minAmount.Some? then Some(AtLeast(minAmount.value)) else None
    ensures forall i :: 0 <= i < |f| ==> f[i].key == "category" || f[i].key == "amount"
    ensures |f| == 0 <==> category.None? && minAmount.None?
    ensures forall d :: Matches(d, f) <==>
      (category.Some? ==> d.category == category) && (minAmount.Some? ==> d.amount >= minAmount.value)
  {
    f := [];
    MatchesEmpty();
    if category.Some? {
      MatchesAppend(f, Clause("category", Equals(category.value)));
      f := f + [Clause("category", Equals(category.value))];
    }
    if minAmount.Some? {
      MatchesAppend(f, Clause("amount", AtLeast(minAmount.value)));
      f := f + [Clause("amount", AtLeast(minAmount.value))];
    }
    if category.Some? && minAmount.Some? {
      assert f[1..] == [Clause("amount", AtLeast(minAmount.value))];
    }
  }

  /** `[c.value for c in currencies]`. */
  function Codes(cs: seq<Currency>): (codes: seq<string>)
    ensures |codes| == |cs|
    ensures forall i :: 0 <= i < |cs| ==> codes[i] == Code(cs[i])
  {
    seq(|cs|, i requires 0 <= i < |cs| => Code(cs[i]))
  }

  /** A code is among the codes of a currency list exactly when a listed currency has it. */
  lemma CodesMembership(cs: seq<Currency>)
    ensures forall s :: s in Codes(cs) <==> exists c :: c in cs && Code(c) == s
  {
    var codes := Codes(cs);
    forall s
      ensures s in codes <==> exists c :: c in cs && Code(c) == s
    {
      if s in codes {
        var i :| 0 <= i < |codes| && codes[i] == s;
        assert cs[i] in cs;
      }
      if exists c :: c in cs && Code(c) == s {
        var c :| c in cs && Code(c) == s;
        var i :| 0 <= i < |cs| && cs[i] == c;
        assert codes[i] == s;
      }
    }
  }

  /** The truth value of an optional list: given and non-empty. */
  predicate NonEmpty<T>(xs: Option<seq<T>>)
  {
    xs.Some? && |xs.value| > 0
  }

  /**
   * The `$match` filter of `get_transaction_stats`: a `currency $in` key
   * only for a non-empty currency list and a `category $in` key only for a
   * non-empty category list; a document matches when its currency is one
   * of the listed ones and it has one of the listed categories.
   */
  method StatsMatchFilter(currencies: Option<seq<Currency>>, categories: Option<seq<string>>) returns (f: Filter)
    ensures Get(f, "currency") == if NonEmpty(currencies) then Some(OneOf(Codes(currencies.value))) else None
    ensures Get(f, "category") == if NonEmpty(categories) then Some(OneOf(categories.value)) else None
    ensures forall i :: 0 <= i < |f| ==> f[i].key == "currency" || f[i].key == "category"
    ensures |f| == 0 <==> !NonEmpty(currencies) && !NonEmpty(categories)
    ensures forall d :: Matches(d, f) <==>
      && (NonEmpty(currencies) ==> exists c :: c in currencies.value && Code(c) == d.currency)
      && (NonEmpty(categories) ==> d.category.Some? && d.category.value in categories.value)
  {
    f := [];
    MatchesEmpty();
    if currencies.Some? && |currencies.value| > 0 {
      var currencyValues := Codes(currencies.value);
      CodesMembership(currencies.value);
      MatchesAppend(f, Clause("currency", OneOf(currencyValues)));
      f := f + [Clause("currency", OneOf(currencyValues))];
    }
    if categories.Some? && |categories.value| > 0 {
      MatchesAppend(f, Clause("category", OneOf(categories.value)));
      f := f + [Clause("category", OneOf(categories.value))];
    }
    if NonEmpty(currencies) && NonEmpty(categories) {
      assert f[1..] == [Clause("category", OneOf(categories.value))];
    }
  }

  // ---------------------------------------------------------------- pipelines

  /** The `_id` of a `$group` stage: a field, or a field with a fallback for a missing or null value. */
  datatype GroupId =
    | FieldRef(field: string)
    | IfNull(field: string, fallback: string)

  /** What a `$group` stage accumulates: the sum of a field, or 1 per document. */
  datatype Accumulator =
    | SumOf(field: string)
    | CountOne

  /** An aggregation stage. */
  datatype Stage =
    | MatchStage(filter: Filter)
    | GroupStage(id: GroupId, output: string, acc: Accumulator)

  /** Whether a document passes every `$match` stage of a pipeline. */
  predicate Selected(pipeline: seq<Stage>, d: StoredDoc)
  {
    forall i :: 0 <= i < |pipeline| && pipeline[i].MatchStage? ==> Matches(d, pipeline[i].filter)
  }

  /** The group a document falls into under a group `_id`. */
  function GroupOf(id: GroupId, d: StoredDoc): Option<string>
  {
    match id
    case FieldRef(field) => TextField(d, field)
    case IfNull(field, fallback) => Some(if TextField(d, field).Some? then TextField(d, field).value else fallback)
  }

  /**
   * The two pipelines of `get_transaction_stats`: each selects the
   * documents the filter matches (through a leading `$match` stage present
   * exactly when the filter is non-empty) and ends in one `$group` stage;
   * the currency pipeline groups by currency and sums the amounts, the
   * category pipeline groups by category, a document without one counting
   * under "Uncategorized".
   */
  method StatsPipelines(filter: Filter) returns (currencyPipeline: seq<Stage>, categoryPipeline: seq<Stage>)
    ensures |currencyPipeline| == |categoryPipeline| == if |filter| > 0 then 2 else 1
    ensures currencyPipeline[0].MatchStage? <==> |filter| > 0
    ensures categoryPipeline[0].MatchStage? <==> |filter| > 0
    ensures forall d :: Selected(currencyPipeline, d) <==> Matches(d, filter)
    ensures forall d :: Selected(categoryPipeline, d) <==> Matches(d, filter)
    ensures var g := currencyPipeline[|currencyPipeline| - 1];
      && g.GroupStage? && g.output == "total" && g.acc == SumOf("amount")
      && forall d :: GroupOf(g.id, d) == Some(d.currency)
    ensures var g := categoryPipeline[|categoryPipeline| - 1];
      && g.GroupStage? && g.output == "count" && g.acc == CountOne
      && forall d :: GroupOf(g.id, d) == Some(if d.category.Some? then d.category.value else "Uncategorized")
  {
    currencyPipeline := [];
    if |filter| > 0 {
      currencyPipeline := currencyPipeline + [MatchStage(filter)];
    }
    currencyPipeline := currencyPipeline + [GroupStage(FieldRef("currency"), "total", SumOf("amount"))];
    categoryPipeline := [];
    if |filter| > 0 {
      categoryPipeline := categoryPipeline + [MatchStage(filter)];
    }
    categoryPipeline := categoryPipeline + [GroupStage(IfNull("category", "Uncategorized"), "count", CountOne)];
    forall d
      ensures Selected(currencyPipeline, d) <==> Matches(d, filter)
      ensures Selected(categoryPipeline, d) <==> Matches(d, filter)
    {
      if |filter| > 0 {
        assert currencyPipeline[0] == MatchStage(filter);
        assert categoryPipeline[0] == MatchStage(filter);
      } else {
        assert Matches(d, filter);
      }
    }
  }

  /** One result document of a `$group` stage: the group and its accumulated value. */
  datatype GroupRow<V> = GroupRow(id: string, value: V)

  /** `{result["_id"]: result[...] for result in results}`: every group present, a later row for a group winning. */
  function ToMap<V>(rows: seq<GroupRow<V>>): (m: map<string, V>)
  {
    if |rows| == 0 then map[]
    else
      var n := |rows| - 1;
      ToMap(rows[..n])[rows[n].id := rows[n].value]
  }

  /** The keys of `ToMap(rows)` are exactly the groups of the rows. */
  lemma {:induction false} ToMapKeys<V>(rows: seq<GroupRow<V>>)
    ensures forall i :: 0 <= i < |rows| ==> rows[i].id in ToMap(rows)
    ensures forall k :: k in ToMap(rows) ==> exists i :: 0 <= i < |rows| && rows[i].id == k
  {
    if |rows| > 0 {
      var n := |rows| - 1;
      var prev := rows[..n];
      ToMapKeys(prev);
      assert forall i :: 0 <= i < n ==> prev[i] == rows[i];
      forall k | k in ToMap(rows)
        ensures exists i :: 0 <= i < |rows| && rows[i].id == k
      {
        if k != rows[n].id {
          var i :| 0 <= i < n && prev[i].id == k;
          assert rows[i].id == k;
        }
      }
    }
  }

  /** A row that no later row of its group follows gives its group's value: the last row wins. */
  lemma {:induction false} ToMapLastWins<V>(rows: seq<GroupRow<V>>, i: nat)
    requires i < |rows|
    requires forall j :: i < j < |rows| ==> rows[j].id != rows[i].id
    ensures rows[i].id in ToMap(rows) && ToMap(rows)[rows[i].id] == rows[i].value
    decreases |rows|
  {
    var n := |rows| - 1;
    if i < n {
      var prev := rows[..n];
      assert prev[i] == rows[i];
      assert forall j :: i < j < n ==> prev[j] == rows[j];
      ToMapLastWins(prev, i);
    }
  }

  /** The response of `get_transaction_stats`, built from the two pipelines' results. */
  function BuildStats(currencyRows: seq<GroupRow<real>>, categoryRows: seq<GroupRow<int>>): (s: TransactionStats)
    ensures s.totalByCurrency == ToMap(currencyRows) && s.countByCategory == ToMap(categoryRows)
  {
    TransactionStats(ToMap(currencyRows), ToMap(categoryRows))
  }

  /**
   * The stats hold exactly the groups of the two result lists, and each
   * group's total or count is the one of its last row.
   */
  lemma BuildStatsGroups(currencyRows: seq<GroupRow<real>>, categoryRows: seq<GroupRow<int>>)
    ensures var s := BuildStats(currencyRows, categoryRows);
      && (forall k :: k in s.totalByCurrency <==> exists i :: 0 <= i < |currencyRows| && currencyRows[i].id == k)
      && (forall k :: k in s.countByCategory <==> exists i :: 0 <= i < |categoryRows| && categoryRows[i].id == k)
  {
    ToMapKeys(currencyRows);
    ToMapKeys(categoryRows);
  }

  /** A currency's total is the one of the last currency row for it. */
  lemma BuildStatsTotal(currencyRows: seq<GroupRow<real>>, categoryRows: seq<GroupRow<int>>, i: nat)
    requires i < |currencyRows|
    requires forall j :: i < j < |currencyRows| ==> currencyRows[j].id != currencyRows[i].id
    ensures var m := BuildStats(currencyRows, categoryRows).totalByCurrency;
      currencyRows[i].id in m && m[currencyRows[i].id] == currencyRows[i].value
  {
    ToMapLastWins(currencyRows, i);
  }

  /** A category's count is the one of the last category row for it. */
  lemma BuildStatsCount(currencyRows: seq<GroupRow<real>>, categoryRows: seq<GroupRow<int>>, i: nat)
    requires i < |categoryRows|
    requires forall j :: i < j < |categoryRows| ==> categoryRows[j].id != categoryRows[i].id
    ensures var m := BuildStats(currencyRows, categoryRows).countByCategory;
      categoryRows[i].id in m && m[categoryRows[i].id] == categoryRows[i].value
  {
    ToMapLastWins(categoryRows, i);
  }

  // ---------------------------------------------------------------- export stream

  /** The archive's file name inside the export's temporary directory. */
  const ZipName: string := "transactions_export.zip"

  /** The most archive bytes read and sent at a time. */
  const ChunkSize: nat := 8192

  /** How many of `paths`, from the first, name existing files. */
  function PresentPrefix(paths: seq<Path>, files: map<Path, Content>): (n: nat)
    ensures n <= |paths|
    ensures forall i :: 0 <= i < n ==> paths[i] in files
    ensures n < |paths| ==> paths[n] !in files
  {
    if |paths| == 0 || paths[0] !in files then 0
    else 1 + PresentPrefix(paths[1..], files)
  }

  /** The present prefix is the one that ends at the first missing path. */
  lemma {:induction false} PresentPrefixAt(paths: seq<Path>, files: map<Path, Content>, n: nat)
    requires n <= |paths|
    requires forall i :: 0 <= i < n ==> paths[i] in files
    requires n < |paths| ==> paths[n] !in files
    ensures PresentPrefix(paths, files) == n
  {
    if n > 0 {
      PresentPrefixAt(paths[1..], files, n - 1);
    }
  }

  /**
   * The entries `zipfile.write(p, arcname=Path(p).name)` adds for `paths`:
   * one per path, under its base name, holding that file, in order, as far
   * as the first path that does not exist.
   */
  function Archived(paths: seq<Path>, files: map<Path, Content>): (es: seq<Entry>)
    ensures |es| == PresentPrefix(paths, files)
    ensures forall i :: 0 <= i < |es| ==> es[i] == Entry(BaseName(paths[i]), files[paths[i]])
  {
    var n := PresentPrefix(paths, files);
    seq(n, i requires 0 <= i < n => Entry(BaseName(paths[i]), files[paths[i]]))
  }

  /**
   * The loop of `zipf.write` calls: reads the files of `paths` in order
   * into entries named by their base names, stopping at the first path
   * that does not exist.
   */
  method ReadEntries(paths: seq<Path>, disk: Disk) returns (entries: seq<Entry>)
    ensures entries == Archived(paths, disk.files)
  {
    entries := [];
    var i := 0;
    while i < |paths| && paths[i] in disk.files
      invariant i <= |paths| && |entries| == i
      invariant forall k :: 0 <= k < i ==> paths[k] in disk.files && entries[k] == Entry(BaseName(paths[k]), disk.files[paths[k]])
    {
      entries := entries + [Entry(BaseName(paths[i]), disk.files[paths[i]])];
      i := i + 1;
    }
    PresentPrefixAt(paths, disk.files, i);
  }

  /**
   * The `with zipfile.ZipFile(zip_path, 'w')` block: creates the archive
   * in `dir`, adds the files in order, and writes the archive on leaving
   * the block, also when a missing file raises, holding the entries added
   * so far. `deflate` stands for the encoding of the entries into archive
   * bytes. The archive cannot be created when `dir` is gone.
   */
  method WriteArchive(paths: seq<Path>, disk: Disk, dir: Path, deflate: seq<Entry> -> seq<bv8>)
    returns (ok: bool, bytes: seq<bv8>)
    modifies disk
    ensures disk.dirs == old(disk.dirs) && disk.locked == old(disk.locked)
    ensures dir !in old(disk.dirs) ==> !ok && disk.files == old(disk.files)
    ensures dir in old(disk.dirs) ==>
      var es := Archived(paths, old(disk.files)[Join(dir, ZipName) := ZipFile([], deflate([]))]);
      && (ok <==> |es| == |paths|)
      && disk.files == old(disk.files)[Join(dir, ZipName) := ZipFile(es, deflate(es))]
      && (ok ==> bytes == deflate(es))
  {
    bytes := [];
    var created := disk.CreateFile(dir, ZipName, ZipFile([], deflate([])));
    if !created {
      return false, bytes;
    }
    var entries := ReadEntries(paths, disk);
    ok := |entries| == |paths|;
    var closed := disk.CreateFile(dir, ZipName, ZipFile(entries, deflate(entries)));
    if ok {
      bytes := disk.files[Join(dir, ZipName)].bytes;
    }
  }

  /**
   * The read-and-yield loop: sends the archive in consecutive pieces of
   * `ChunkSize` bytes, the last one possibly shorter, until a read comes
   * back empty. The consumer stops after `demand` pieces when that is
   * given; it has asked for at least one, so the loop has started.
   * `completed` says the loop ran to its end rather than being closed at a
   * `yield`.
   */
  method StreamChunks(bytes: seq<bv8>, demand: Option<nat>) returns (completed: bool, sent: seq<seq<bv8>>)
    requires demand != Some(0)
    ensures var chunks := Chunks(bytes, ChunkSize);
      && (completed <==> demand.None? || demand.value > |chunks|)
      && (completed ==> sent == chunks)
      && (!completed ==> demand.Some? && demand.value <= |chunks| && sent == chunks[..demand.value])
  {
    ghost var all := Chunks(bytes, ChunkSize);
    sent := [];
    var pos := 0;
    while true
      invariant pos <= |bytes|
      invariant sent + Chunks(bytes[pos..], ChunkSize) == all
      invariant demand.Some? ==> |sent| < demand.value
      decreases |bytes| - pos
    {
      var end := if pos + ChunkSize <= |bytes| then pos + ChunkSize else |bytes|;
      var chunk := bytes[pos..end];
      if |chunk| == 0 {
        assert pos == |bytes|;
        ReadToEnd(bytes, pos, ChunkSize, sent, all);
        return true, sent;
      }
      ReadOn(bytes, pos, ChunkSize, sent, all);
      sent := sent + [chunk];
      pos := end;
      if demand.Some? && |sent| == demand.value {
        SentPrefix(sent, Chunks(bytes[pos..], ChunkSize));
        return false, sent;
      }
    }
  }

  /** What has been sent is the first pieces of the whole. */
  lemma SentPrefix(sent: seq<seq<bv8>>, rest: seq<seq<bv8>>)
    ensures |sent| <= |sent + rest| && (sent + rest)[..|sent|] == sent
  {
  }

  /** How the archive stream ended. */
  datatype StreamOutcome =
    /** The consumer never asked for a first piece, so the generator never ran, not even its `finally`. */
    | NotStarted
    /** Every piece was sent. */
    | Completed
    /** The consumer stopped after the pieces it wanted. */
    | Abandoned
    /** An exception ended the stream: no temporary directory, or a file or directory missing. */
    | Failed

  /**
   * `generate_zip_stream`: builds `transactions_export.zip` in the
   * service's temporary directory from `paths`, streams it in pieces, and
   * in `finally`, however the stream ends once it has entered its `try`,
   * cleans the temporary directory up. Without a temporary directory it
   * raises before the `try`, so nothing is cleaned.
   */
  method GenerateZipStream(paths: seq<Path>, service: ExportService, deflate: seq<Entry> -> seq<bv8>, demand: Option<nat>)
    returns (outcome: StreamOutcome, sent: seq<seq<bv8>>)
    requires service.tempDir != Some("")
    modifies service, service.disk
    ensures service.disk.locked == old(service.disk.locked)
    ensures demand == Some(0) || old(service.tempDir).None? ==>
      && outcome == (if demand == Some(0) then NotStarted else Failed) && sent == []
      && service.tempDir == old(service.tempDir)
      && service.disk.dirs == old(service.disk.dirs) && service.disk.files == old(service.disk.files)
    ensures demand != Some(0) && old(service.tempDir).Some? ==>
      var d := old(service.tempDir).value;
      var zip := Join(d, ZipName);
      var es := Archived(paths, old(service.disk.files)[zip := ZipFile([], deflate([]))]);
      var chunks := Chunks(deflate(es), ChunkSize);
      && outcome != NotStarted
      && (outcome == Failed <==> d !in old(service.disk.dirs) || |es| < |paths|)
      && (outcome == Failed ==> sent == [])
      && (outcome == Completed <==> outcome != Failed && (demand.None? || demand.value > |chunks|))
      && (outcome == Completed ==> sent == chunks)
      && (outcome == Abandoned ==> demand.Some? && demand.value <= |chunks| && sent == chunks[..demand.value])
      && if d in old(service.disk.dirs) && d !in old(service.disk.locked) then
           && service.tempDir == None
           && service.disk.dirs == Prune(old(service.disk.dirs), d)
           && service.disk.files == Outside(old(service.disk.files), d)
         else
           && service.tempDir == old(service.tempDir)
           && service.disk.dirs == old(service.disk.dirs)
           && service.disk.files == if d in old(service.disk.dirs) then old(service.disk.files)[zip := ZipFile(es, deflate(es))]
                                    else old(service.disk.files)
  {
    if demand == Some(0) {
      return NotStarted, [];
    }
    var tempDir := service.GetTempDir();
    if tempDir.None? {
      return Failed, [];
    }
    var ok, bytes := WriteArchive(paths, service.disk, tempDir.value, deflate);
    if ok {
      var completed;
      completed, sent := StreamChunks(bytes, demand);
      outcome := if completed then Completed else Abandoned;
    } else {
      outcome, sent := Failed, [];
    }
    ghost var before := service.disk.files;
    service.CleanupTempFiles();
    if tempDir.value in old(service.disk.dirs) {
      var es := Archived(paths, old(service.disk.files)[Join(tempDir.value, ZipName) := ZipFile([], deflate([]))]);
      JoinUnder(tempDir.value, ZipName);
      OutsideIgnoresUnder(old(service.disk.files), tempDir.value, Join(tempDir.value, ZipName), ZipFile(es, deflate(es)));
    }
  }

  /** The response of `export_transactions`. */
  datatype ExportResponse =
    /** 404: there was nothing to export. */
    | NotFound
    /** 500: the export raised. */
    | ServerError(cause: ExportError)
    /** 200: a stream of the archive of these part files. */
    | ZipStream(paths: seq<Path>)

  /** An export that wrote nothing returns no paths: the cursor was empty. */
  lemma NoPartsOnlyWhenEmpty(records: seq<Record>)
    ensures |Parts(records)| == 0 <==> |records| == 0
  {
    PartsShape(records);
  }

  /** Removing the export's directory removes everything the export wrote and nothing else. */
  lemma CleanupUndoesExport(base: map<Path, Content>, name: Path, src: Source)
    requires forall p :: p in base ==> !Under(p, name)
    ensures Outside(base + PartFiles(name, Parts(src.cursor[..Written(src)])) + StrayPart(name, src), name) == base
  {
    OutsideDropsBoth(base, PartFiles(name, Parts(src.cursor[..Written(src)])), StrayPart(name, src), name);
  }

  method ExportTransactions(disk: Disk, src: Source, name: Path) returns (resp: ExportResponse, service: ExportService)
    requires name != "" && name !in disk.dirs && forall p :: p in disk.files ==> !Under(p, name)
    modifies disk
    ensures fresh(service) && service.disk == disk
    ensures disk.locked == old(disk.locked)
    ensures resp.NotFound? <==> src.count == Some(0) || (src.count.Some? && LoopError(src).None? && |src.cursor| == 0)
    ensures resp.ServerError? <==> src.count.None? || (src.count.value > 0 && LoopError(src).Some?)
    ensures resp.NotFound? ==>
      && service.tempDir == Some(name)
      && disk.dirs == old(disk.dirs) + {name} && disk.files == old(disk.files)
    ensures resp.ServerError? ==>
      if name !in old(disk.locked) then
        && service.tempDir == None
        && disk.dirs == Prune(old(disk.dirs) + {name}, name) && disk.files == old(disk.files)
      else
        && service.tempDir == Some(name)
        && disk.dirs == old(disk.dirs) + {name}
        && disk.files == if src.count.None? then old(disk.files)
                         else old(disk.files) + PartFiles(name, Parts(src.cursor[..Written(src)])) + StrayPart(name, src)
    ensures resp.ZipStream? ==>
      && resp.paths == PartPaths(name, |Parts(src.cursor)|) && |resp.paths| > 0
      && service.tempDir == Some(name)
      && disk.dirs == old(disk.dirs) + {name}
      && disk.files == old(disk.files) + PartFiles(name, Parts(src.cursor))
  {
    service := new ExportService(disk);
    var r := service.ExportToCsv(src, name);
    if r.Err? {
      if src.count.Some? {
        CleanupUndoesExport(old(disk.files), name, src);
      }
      service.CleanupTempFiles();
      return ServerError(r.error), service;
    }
    NoPartsOnlyWhenEmpty(src.cursor);
    if |r.value| == 0 {
      return NotFound, service;
    }
    assert src.cursor[..Written(src)] == src.cursor;
    return ZipStream(r.value), service;
  }

  // ---------------------------------------------------------------- the export end to end

  /** A part's file name is never the archive's. */
  lemma PartNameIsNotZipName(k: nat)
    ensures PartName(k) != ZipName
  {
    assert PartName(k)[13] == 'p';
  }

  /**
   * The archive a successful export streams: part k, under its own file
   * name, holding the CSV header followed by the k-th block of rows.
   */
  function ExportArchive(records: seq<Record>): (es: seq<Entry>)
    ensures |es| == |Parts(records)|
  {
    PartEntries(Parts(records))
  }

  /** The archive entries of `parts`: part k under its own name, the header followed by its rows. */
  function PartEntries(parts: seq<seq<Row>>): (es: seq<Entry>)
    ensures |es| == |parts|
  {
    seq(|parts|, i requires 0 <= i < |parts| => Entry(PartName(i + 1), CsvFile([Headers()] + parts[i])))
  }

  /** The data rows of each CSV entry of an archive, its header line dropped. */
  function DataRows(es: seq<Entry>): (rows: seq<seq<Row>>)
    ensures |rows| == |es|
  {
    seq(|es|, i requires 0 <= i < |es| =>
      if es[i].data.CsvFile? && |es[i].data.rows| > 0 then es[i].data.rows[1..] else [])
  }

  /**
   * What the exported archive holds: ceil(N / MaxRowsPerCsv) CSV files
   * with distinct names `transactions_part_k.csv`, each starting with the
   * header, all full but the last, whose data rows read in order are the
   * converted records in cursor order.
   */
  lemma ExportArchiveContents(records: seq<Record>)
    ensures var es := ExportArchive(records);
      && |es| == CeilDiv(|records|, MaxRowsPerCsv)
      && (forall i, j :: 0 <= i < j < |es| ==> es[i].name != es[j].name)
      && (forall i :: 0 <= i < |es| ==>
            && es[i].name == PartName(i + 1) && es[i].data.CsvFile?
            && |es[i].data.rows| > 1 && es[i].data.rows[0] == Headers())
      && (forall i :: 0 <= i < |es| ==> |DataRows(es)[i]| <= MaxRowsPerCsv)
      && (forall i :: 0 <= i < |es| - 1 ==> |DataRows(es)[i]| == MaxRowsPerCsv)
      && Flatten(DataRows(es)) == Rows(records)
  {
    PartsShape(records);
    PartEntriesShape(Parts(records));
  }

  /**
   * The entries of non-empty parts have distinct names, part k is named
   * `PartName(k)`, and each holds the header followed by its part.
   */
  lemma PartEntriesShape(parts: seq<seq<Row>>)
    requires forall k :: 0 <= k < |parts| ==> |parts[k]| > 0
    ensures var es := PartEntries(parts);
      && (forall i, j :: 0 <= i < j < |es| ==> es[i].name != es[j].name)
      && (forall i :: 0 <= i < |es| ==>
            && es[i].name == PartName(i + 1) && es[i].data.CsvFile?
            && |es[i].data.rows| > 1 && es[i].data.rows[0] == Headers())
      && DataRows(es) == parts
  {
    var es := PartEntries(parts);
    PartEntryNamesDistinct(parts);
    forall i | 0 <= i < |es|
      ensures DataRows(es)[i] == parts[i]
    {
      assert es[i].data.rows == [Headers()] + parts[i];
      assert ([Headers()] + parts[i])[1..] == parts[i];
    }
  }

  /** No two part entries share a name. */
  lemma PartEntryNamesDistinct(parts: seq<seq<Row>>)
    ensures var es := PartEntries(parts);
      forall i, j :: 0 <= i < j < |es| ==> es[i].name != es[j].name
  {
    var es := PartEntries(parts);
    forall i, j | 0 <= i < j < |es|
      ensures es[i].name != es[j].name
    {
      if PartName(i + 1) == PartName(j + 1) {
        PartNameInjective(i + 1, j + 1);
      }
    }
  }

  /** Part `k` of an export is still in the store once the archive is written beside it. */
  lemma PartBesideArchive(base: map<Path, Content>, name: Path, parts: seq<seq<Row>>, c: Content, k: nat)
    requires 1 <= k <= |parts|
    ensures var files := (base + PartFiles(name, parts))[Join(name, ZipName) := c];
      && PartPath(name, k) in files && files[PartPath(name, k)] == CsvFile([Headers()] + parts[k - 1])
      && BaseName(PartPath(name, k)) == PartName(k)
  {
    PartNameIsNotZipName(k);
    if PartPath(name, k) == Join(name, ZipName) {
      JoinInjective(name, PartName(k), ZipName);
    }
    BaseNameOfJoin(name, PartName(k));
  }

  /** Paths that are all present archive as one entry each, under their base names. */
  lemma ArchivedAll(paths: seq<Path>, files: map<Path, Content>, es: seq<Entry>)
    requires |es| == |paths|
    requires forall k :: 0 <= k < |paths| ==> paths[k] in files && es[k] == Entry(BaseName(paths[k]), files[paths[k]])
    ensures Archived(paths, files) == es
  {
    PresentPrefixAt(paths, files, |paths|);
  }

  /** A store holding every part of an export under its path archives as those parts' entries. */
  lemma ArchivedStore(files: map<Path, Content>, name: Path, parts: seq<seq<Row>>)
    requires forall k :: 1 <= k <= |parts| ==>
      && PartPath(name, k) in files && files[PartPath(name, k)] == CsvFile([Headers()] + parts[k - 1])
      && BaseName(PartPath(name, k)) == PartName(k)
    ensures Archived(PartPaths(name, |parts|), files) == PartEntries(parts)
  {
    var paths, es := PartPaths(name, |parts|), PartEntries(parts);
    forall k | 0 <= k < |parts|
      ensures paths[k] in files && es[k] == Entry(BaseName(paths[k]), files[paths[k]])
    {
      assert paths[k] == PartPath(name, k + 1);
    }
    ArchivedAll(paths, files, es);
  }

  /** After an export, the archive built from the returned paths is `ExportArchive` of the cursor. */
  lemma ArchivedParts(base: map<Path, Content>, name: Path, records: seq<Record>, c: Content)
    ensures var files := (base + PartFiles(name, Parts(records)))[Join(name, ZipName) := c];
      Archived(PartPaths(name, |Parts(records)|), files) == ExportArchive(records)
  {
    var parts := Parts(records);
    var files := (base + PartFiles(name, parts))[Join(name, ZipName) := c];
    forall k | 1 <= k <= |parts|
      ensures && PartPath(name, k) in files && files[PartPath(name, k)] == CsvFile([Headers()] + parts[k - 1])
              && BaseName(PartPath(name, k)) == PartName(k)
    {
      PartBesideArchive(base, name, parts, c, k);
    }
    ArchivedStore(files, name, parts);
  }

  /**
   * The export endpoint together with the stream it returns: when there is
   * something to export and the consumer asks for it, the pieces sent are
   * those of `ExportArchive` of the cursor, and once the stream ends the
   * temporary directory and everything in it are gone, unless it cannot be
   * removed.
   */
  method ServeExport(disk: Disk, src: Source, name: Path, deflate: seq<Entry> -> seq<bv8>, demand: Option<nat>)
    returns (resp: ExportResponse, outcome: StreamOutcome, sent: seq<seq<bv8>>)
    requires name != "" && name !in disk.dirs && forall p :: p in disk.files ==> !Under(p, name)
    modifies disk
    ensures disk.locked == old(disk.locked)
    ensures resp.ZipStream? <==> src.count.Some? && src.count.value > 0 && LoopError(src).None? && |src.cursor| > 0
    ensures !resp.ZipStream? ==> outcome == NotStarted && sent == []
    ensures resp.ZipStream? && demand == Some(0) ==>
      && outcome == NotStarted && sent == []
      && disk.dirs == old(disk.dirs) + {name}
      && disk.files == old(disk.files) + PartFiles(name, Parts(src.cursor))
    ensures resp.ZipStream? && demand != Some(0) ==>
      var archive := ExportArchive(src.cursor);
      var chunks := Chunks(deflate(archive), ChunkSize);
      && (outcome == Completed || outcome == Abandoned)
      && (outcome == Completed <==> demand.None? || demand.value > |chunks|)
      && (outcome == Completed ==> sent == chunks)
      && (outcome == Abandoned ==> demand.Some? && demand.value <= |chunks| && sent == chunks[..demand.value])
      && (name !in old(disk.locked) ==>
            disk.dirs == Prune(old(disk.dirs) + {name}, name) && disk.files == old(disk.files))
      && (name in old(disk.locked) ==>
            && disk.dirs == old(disk.dirs) + {name}
            && disk.files == (old(disk.files) + PartFiles(name, Parts(src.cursor)))[Join(name, ZipName) := ZipFile(archive, deflate(archive))])
  {
    var service;
    resp, service := ExportTransactions(disk, src, name);
    if !resp.ZipStream? {
      return resp, NotStarted, [];
    }
    outcome, sent := StreamExport(resp.paths, service, old(disk.files), src.cursor, name, deflate, demand);
  }

  /**
   * The stream of a successful export: `paths` are the parts of `records`
   * that the export wrote into `name` over the files `base`.
   */
  method StreamExport(paths: seq<Path>, service: ExportService, ghost base: map<Path, Content>, ghost records: seq<Record>,
    name: Path, deflate: seq<Entry> -> seq<bv8>, demand: Option<nat>)
    returns (outcome: StreamOutcome, sent: seq<seq<bv8>>)
    requires name != "" && service.tempDir == Some(name) && name in service.disk.dirs
    requires forall p :: p in base ==> !Under(p, name)
    requires paths == PartPaths(name, |Parts(records)|)
    requires service.disk.files == base + PartFiles(name, Parts(records))
    modifies service, service.disk
    ensures service.disk.locked == old(service.disk.locked)
    ensures demand == Some(0) ==>
      && outcome == NotStarted && sent == []
      && service.disk.dirs == old(service.disk.dirs) && service.disk.files == old(service.disk.files)
    ensures demand != Some(0) ==>
      var archive := ExportArchive(records);
      var chunks := Chunks(deflate(archive), ChunkSize);
      && (outcome == Completed || outcome == Abandoned)
      && (outcome == Completed <==> demand.None? || demand.value > |chunks|)
      && (outcome == Completed ==> sent == chunks)
      && (outcome == Abandoned ==> demand.Some? && demand.value <= |chunks| && sent == chunks[..demand.value])
      && (name !in old(service.disk.locked) ==>
            service.disk.dirs == Prune(old(service.disk.dirs), name) && service.disk.files == base)
      && (name in old(service.disk.locked) ==>
            && service.disk.dirs == old(service.disk.dirs)
            && service.disk.files == old(service.disk.files)[Join(name, ZipName) := ZipFile(archive, deflate(archive))])
  {
    ExportThenArchive(base, name, records, deflate);
    outcome, sent := GenerateZipStream(paths, service, deflate, demand);
  }

  /**
   * What the stream finds after an export: archiving the returned paths
   * gives `ExportArchive` of the cursor, one entry per path, and removing
   * the directory gives back the files from before the export.
   */
  lemma ExportThenArchive(base: map<Path, Content>, name: Path, records: seq<Record>, deflate: seq<Entry> -> seq<bv8>)
    requires forall p :: p in base ==> !Under(p, name)
    ensures var files := base + PartFiles(name, Parts(records));
      var paths := PartPaths(name, |Parts(records)|);
      var es := Archived(paths, files[Join(name, ZipName) := ZipFile([], deflate([]))]);
      && es == ExportArchive(records) && |es| == |paths|
      && Outside(files, name) == base
  {
    ArchivedParts(base, name, records, ZipFile([], deflate([])));
    OutsideDropsAdded(base, PartFiles(name, Parts(records)), name);
  }
}
