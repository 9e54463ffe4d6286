/** The filter part of `crud.search`: each requested criterion becomes one SQL condition
    with a numbered placeholder `$k`, its argument goes to position `k` of the argument
    list, and the conditions are joined into a `WHERE` clause. */
module SearchFilters {
  import opened Wrappers
  import opened Strings

  /** One query argument, tagged with the criterion it belongs to. */
  datatype QueryArg =
    | TagsArg(tags: seq<string>)
    | MarkerArg(markerId: int)
    | NameArg(searchQuery: string)

  /** The position of a criterion in the order the filters are added. */
  function Rank(a: QueryArg): nat
  {
    match a
    case TagsArg(_) => 0
    case MarkerArg(_) => 1
    case NameArg(_) => 2
  }

  /** The text of a criterion's template before its `${}` placeholder. */
  function Before(a: QueryArg): string
  {
    match a
    case TagsArg(_) => "\n    "
    case MarkerArg(_) => "\n    u.id = "
    case NameArg(_) => "\n    r.name ILIKE '%' || "
  }

  /** The text of the tags condition after its placeholder, line by line: a subquery
      collecting the names of the research's tags. */
  const TagsSelect: string := " <@ (array(SELECT name \n"
  const Indent: string := "              "
  const TagsFrom: string := "FROM researches_tags r_t\n"
  const TagsJoin: string := "LEFT JOIN tags t "
  const TagsOn: string := "ON t.id = r_t.tag_id\n"
  const TagsWhere: string := "WHERE r_t.research_id = r.id\n"
  const TagsClose: string := "))\n    "

  /** The text of a criterion's template after its `${}` placeholder. */
  function After(a: QueryArg): string
  {
    match a
    case TagsArg(_) =>
      TagsSelect + Indent + TagsFrom + Indent + TagsJoin + TagsOn + Indent + TagsWhere + Indent + TagsClose
    case MarkerArg(_) => "\n    "
    case NameArg(_) => " || '%'\n    "
  }

  /** `template.format(k)`: the condition for `a` with its placeholder numbered `k`. */
  function Filter(a: QueryArg, k: nat): string
  {
    Before(a) + "$" + DecimalString(k) + After(a)
  }

  /** The arguments `search` passes, in the order it adds them: the tags, then the
      marker, then the name pattern, each only when it is given. */
  function Requested(searchQuery: Option<string>, tags: Option<seq<string>>,
                     markerId: Option<int>): (args: seq<QueryArg>)
    ensures forall i, j :: 0 <= i < j < |args| ==> Rank(args[i]) < Rank(args[j])
    ensures forall i :: 0 <= i < |args| ==>
              match args[i]
              case TagsArg(x) => tags == Some(x)
              case MarkerArg(x) => markerId == Some(x)
              case NameArg(x) => searchQuery == Some(x)
  {
    (if tags.Some? then [TagsArg(tags.value)] else [])
    + (if markerId.Some? then [MarkerArg(markerId.value)] else [])
    + (if searchQuery.Some? then [NameArg(searchQuery.value)] else [])
  }

  /** Each criterion given is passed, and only those: an empty tag list still adds its
      condition, since only `None` leaves one out. */
  lemma RequestedGiven(searchQuery: Option<string>, tags: Option<seq<string>>, markerId: Option<int>)
    ensures var args := Requested(searchQuery, tags, markerId);
            (tags.Some? ==> TagsArg(tags.value) in args) &&
            (markerId.Some? ==> MarkerArg(markerId.value) in args) &&
            (searchQuery.Some? ==> NameArg(searchQuery.value) in args)
    ensures var args := Requested(searchQuery, tags, markerId);
            |args| == (if tags.Some? then 1 else 0) + (if markerId.Some? then 1 else 0)
                      + (if searchQuery.Some? then 1 else 0)
  {
  }

  /** Appending an argument appends its condition, numbered after the others. */
  lemma FiltersAppend(args: seq<QueryArg>, a: QueryArg)
    ensures Filters(args + [a]) == Filters(args) + [Filter(a, |args| + 1)]
  {
  }

  /** The conditions for `args`, the `i`-th numbered `i + 1`. */
  function Filters(args: seq<QueryArg>): seq<string>
  {
    seq(|args|, i requires 0 <= i < |args| => Filter(args[i], i + 1))
  }

  /** `'WHERE ' + ' AND '.join(filters) if filters else ''`. */
  function WhereClause(filters: seq<string>): string
  {
    if filters == [] then "" else "WHERE " + JoinWith(filters, " AND ")
  }

  /** The filter part of `search(con, search_query, tags, marker_id)`: the conditions and
      their arguments are appended in turn, `filters_count` numbering the placeholders;
      the returned clause is inserted into the query, which runs with the returned
      arguments. */
  method BuildFilters(searchQuery: Option<string>, tags: Option<seq<string>>, markerId: Option<int>)
    returns (whereClause: string, queryArgs: seq<QueryArg>)
    ensures queryArgs == Requested(searchQuery, tags, markerId)
    ensures whereClause == WhereClause(Filters(queryArgs))
  {
    var filters: seq<string> := [];
    queryArgs := [];
    assert Filters(queryArgs) == [];
    var filtersCount := 0;
    if tags.Some? {
      filtersCount := filtersCount + 1;
      FiltersAppend(queryArgs, TagsArg(tags.value));
      filters := filters + [Filter(TagsArg(tags.value), filtersCount)];
      queryArgs := queryArgs + [TagsArg(tags.value)];
    }
    assert filters == Filters(queryArgs) && filtersCount == |queryArgs|;
    assert queryArgs == if tags.Some? then [TagsArg(tags.value)] else [];
    if markerId.Some? {
      filtersCount := filtersCount + 1;
      FiltersAppend(queryArgs, MarkerArg(markerId.value));
      filters := filters + [Filter(MarkerArg(markerId.value), filtersCount)];
      queryArgs := queryArgs + [MarkerArg(markerId.value)];
    }
    assert filters == Filters(queryArgs) && filtersCount == |queryArgs|;
    assert queryArgs == (if tags.Some? then [TagsArg(tags.value)] else [])
                        + (if markerId.Some? then [MarkerArg(markerId.value)] else []);
    if searchQuery.Some? {
      filtersCount := filtersCount + 1;
      FiltersAppend(queryArgs, NameArg(searchQuery.value));
      filters := filters + [Filter(NameArg(searchQuery.value), filtersCount)];
      queryArgs := queryArgs + [NameArg(searchQuery.value)];
    }
    assert filters == Filters(queryArgs);
    whereClause := if filters != [] then "WHERE " + JoinWith(filters, " AND ") else "";
  }

  /** The number of leading decimal digits of `s`. */
  function DigitRun(s: string): (n: nat)
    ensures n <= |s|
    ensures forall i :: 0 <= i < n ==> IsDigit(s[i])
    ensures n < |s| ==> !IsDigit(s[n])
    decreases |s|
  {
    if s == [] || !IsDigit(s[0]) then 0 else 1 + DigitRun(s[1..])
  }

  /** The placeholder numbers of a query text in the order they appear, as the database
      driver reads them: every `$` followed by digits. */
  function Placeholders(s: string): seq<nat>
    decreases |s|
  {
    if s == [] then []
    else if s[0] == '$' then
      var rest := s[1..];
      var n := DigitRun(rest);
      (if n == 0 then [] else [ParseDecimal(rest[..n])]) + Placeholders(rest[n..])
    else Placeholders(s[1..])
  }

  /** A text that ends neither in a digit nor in `$` cannot run into what follows it. */
  predicate CleanEnd(s: string)
  {
    s != [] && !IsDigit(s[|s| - 1]) && s[|s| - 1] != '$'
  }

  lemma {:induction false} NoDollarNoPlaceholders(s: string)
    requires '$' !in s
    ensures Placeholders(s) == []
    decreases |s|
  {
    if s != [] {
      assert s[0] != '$';
      assert forall c :: c in s[1..] ==> c in s;
      NoDollarNoPlaceholders(s[1..]);
    }
  }

  /** A digit run that stops inside `x` is not lengthened by what follows `x`. */
  lemma {:induction false} DigitRunAppend(x: string, y: string)
    requires DigitRun(x) < |x|
    ensures DigitRun(x + y) == DigitRun(x)
    decreases |x|
  {
    if IsDigit(x[0]) {
      assert (x + y)[1..] == x[1..] + y;
      DigitRunAppend(x[1..], y);
    }
  }

  /** The digits at the start of a string of digits followed by a non-digit. */
  lemma {:induction false} DigitRunOfNumber(d: string, y: string)
    requires forall i :: 0 <= i < |d| ==> IsDigit(d[i])
    requires y == [] || !IsDigit(y[0])
    ensures DigitRun(d + y) == |d|
    decreases |d|
  {
    if d != [] {
      assert (d + y)[1..] == d[1..] + y;
      DigitRunOfNumber(d[1..], y);
    } else {
      assert d + y == y;
    }
  }

  /** Placeholders of a concatenation, when the first part ends cleanly. */
  lemma {:induction false} PlaceholdersAppend(a: string, b: string)
    requires CleanEnd(a)
    ensures Placeholders(a + b) == Placeholders(a) + Placeholders(b)
    decreases |a|
  {
    var s := a + b;
    if |a| == 1 {
      assert s[1..] == b;
    } else if a[0] == '$' {
      var rest := a[1..];
      assert !IsDigit(rest[|rest| - 1]);
      var n := DigitRun(rest);
      assert s[1..] == rest + b;
      DigitRunAppend(rest, b);
      assert (rest + b)[..n] == rest[..n];
      assert (rest + b)[n..] == rest[n..] + b;
      if n == 0 {
        PlaceholdersAppend(rest, b);
      } else {
        PlaceholdersAppend(rest[n..], b);
      }
    } else {
      assert s[1..] == a[1..] + b;
      PlaceholdersAppend(a[1..], b);
    }
  }

  lemma DollarFreeAppend(a: string, b: string)
    requires '$' !in a && '$' !in b
    ensures '$' !in a + b
  {
    assert forall c :: c in a + b ==> c in a || c in b;
  }

  /** The lines of the tags condition hold no `$`. */
  lemma TagsLinesDollarFree()
    ensures '$' !in TagsSelect && '$' !in Indent && '$' !in TagsFrom && '$' !in TagsJoin
    ensures '$' !in TagsOn && '$' !in TagsWhere && '$' !in TagsClose
  {
    TagsSelectDollarFree();
    TagsFromDollarFree();
    TagsOnDollarFree();
    TagsWhereDollarFree();
  }

  // One obligation per literal: checked together, the four literals take most of the
  // resource limit.
  lemma TagsSelectDollarFree() ensures '$' !in TagsSelect {}
  lemma TagsFromDollarFree() ensures '$' !in TagsFrom {}
  lemma TagsOnDollarFree() ensures '$' !in TagsOn {}
  lemma TagsWhereDollarFree() ensures '$' !in TagsWhere {}

  /** The tags condition after its placeholder holds no `$`. */
  lemma TagsTailDollarFree()
    ensures '$' !in After(TagsArg([]))
  {
    TagsLinesDollarFree();
    var s := TagsSelect;
    DollarFreeAppend(s, Indent); s := s + Indent;
    DollarFreeAppend(s, TagsFrom); s := s + TagsFrom;
    DollarFreeAppend(s, Indent); s := s + Indent;
    DollarFreeAppend(s, TagsJoin); s := s + TagsJoin;
    DollarFreeAppend(s, TagsOn); s := s + TagsOn;
    DollarFreeAppend(s, Indent); s := s + Indent;
    DollarFreeAppend(s, TagsWhere); s := s + TagsWhere;
    DollarFreeAppend(s, Indent); s := s + Indent;
    DollarFreeAppend(s, TagsClose); s := s + TagsClose;
  }

  /** Around its placeholder every template holds no `$`, the text after it starts with a
      non-digit and both parts end with a space. */
  lemma TemplateShape(a: QueryArg)
    ensures '$' !in Before(a) && '$' !in After(a)
    ensures CleanEnd(After(a)) && !IsDigit(After(a)[0])
    ensures CleanEnd(Before(a))
  {
    if a.TagsArg? {
      TagsTailDollarFree();
      assert After(a) == After(TagsArg([]));
      assert After(a)[0] == TagsSelect[0];
    }
  }

  /** A placeholder followed by a text without `$` that cannot run into it. */
  lemma PlaceholderThen(after: string, k: nat)
    requires '$' !in after && after != [] && !IsDigit(after[0])
    ensures Placeholders("$" + DecimalString(k) + after) == [k]
  {
    var d := DecimalString(k);
    var tail := "$" + d + after;
    assert tail[1..] == d + after;
    DigitRunOfNumber(d, after);
    assert (d + after)[..|d|] == d;
    assert (d + after)[|d|..] == after;
    NoDollarNoPlaceholders(after);
    ParseDecimalString(k);
  }

  /** A placeholder between two texts without `$` that cannot run into it. */
  lemma NumberedPlaceholder(before: string, after: string, k: nat)
    requires '$' !in before && '$' !in after
    requires CleanEnd(before) && CleanEnd(after) && !IsDigit(after[0])
    ensures Placeholders(before + "$" + DecimalString(k) + after) == [k]
    ensures CleanEnd(before + "$" + DecimalString(k) + after)
  {
    var tail := "$" + DecimalString(k) + after;
    assert before + "$" + DecimalString(k) + after == before + tail;
    PlaceholderThen(after, k);
    PlaceholdersAppend(before, tail);
    NoDollarNoPlaceholders(before);
  }

  /** Each condition holds exactly one placeholder, numbered as asked. */
  lemma FilterPlaceholder(a: QueryArg, k: nat)
    ensures Placeholders(Filter(a, k)) == [k]
    ensures CleanEnd(Filter(a, k))
  {
    TemplateShape(a);
    NumberedPlaceholder(Before(a), After(a), k);
  }

  /** Joining conditions numbered from `k` gives their placeholders in order. */
  lemma {:induction false} JoinedPlaceholders(fs: seq<string>, k: nat)
    requires forall i :: 0 <= i < |fs| ==> Placeholders(fs[i]) == [k + i] && CleanEnd(fs[i])
    ensures Placeholders(JoinWith(fs, " AND ")) == seq(|fs|, i => k + i)
    decreases |fs|
  {
    if |fs| == 1 {
      assert Placeholders(fs[0]) == [k];
    } else if |fs| > 1 {
      var rest := JoinWith(fs[1..], " AND ");
      JoinedPlaceholders(fs[1..], k + 1);
      assert JoinWith(fs, " AND ") == fs[0] + (" AND " + rest);
      PlaceholdersAppend(fs[0], " AND " + rest);
      assert " AND " + rest == " AND " + rest;
      PlaceholdersAppend(" AND ", rest);
      NoDollarNoPlaceholders(" AND ");
      assert Placeholders(fs[0]) == [k];
    }
  }

  /** The clause built for `args` numbers its placeholders `1..n` in order, so the `k`-th
      placeholder is bound to the `k`-th argument, and there are as many placeholders as
      arguments; with no argument there is no clause at all. */
  lemma WherePlaceholders(args: seq<QueryArg>)
    ensures Placeholders(WhereClause(Filters(args))) == seq(|args|, i => i + 1)
    ensures WhereClause(Filters(args)) == "" <==> args == []
  {
    var fs := Filters(args);
    if args != [] {
      forall i | 0 <= i < |fs| ensures Placeholders(fs[i]) == [1 + i] && CleanEnd(fs[i]) {
        FilterPlaceholder(args[i], i + 1);
      }
      JoinedPlaceholders(fs, 1);
      PlaceholdersAppend("WHERE ", JoinWith(fs, " AND "));
      NoDollarNoPlaceholders("WHERE ");
    }
  }
}
