/**
 * The search-criteria builders of `BaseQueryHandler` and `StoredFileQueryHandler`, with
 * Mongo criteria as predicate values, and the page copy `toDtoPage`.
 */
module SearchQuery {
  import opened Wrappers
  import opened Text

  /** The exception a builder lets escape: `PatternSyntaxException` from `Pattern.compile`. */
  datatype QueryError = PatternSyntax

  /** The flags passed to `Pattern.compile`. */
  datatype RegexFlag = CaseInsensitive | UnicodeCase

  /** A Mongo criteria value: `where(field).regex(...)`, `where(field).is(true)` or an `$or`. */
  datatype Predicate =
    | FieldRegex(field: string, pattern: string, flags: set<RegexFlag>)
    | FieldIsTrue(field: string)
    | AnyOf(operands: seq<Predicate>)

  /** The `rootCriteria` a caller hands in; `andOperator` records its operands. */
  class Criteria {
    var andOperands: Option<seq<Predicate>>

    constructor ()
      ensures andOperands.None?
    {
      andOperands := None;
    }

    /** `andOperator(...)` on a criteria that has no `$and` yet. */
    method AndOperator(operands: seq<Predicate>)
      requires andOperands.None?
      modifies this
      ensures andOperands == Some(operands)
    {
      andOperands := Some(operands);
    }
  }

  /** `showInactive == null || !showInactive`. */
  predicate OnlyActive(showInactive: Option<bool>) {
    showInactive.None? || !showInactive.value
  }

  /** `StringUtils.isNotBlank(filter)` (and `isNoneBlank` of one argument). */
  predicate FilterGiven(filter: Option<string>) {
    filter.Some? && IsNotBlank(filter.value)
  }

  const IsActive: Predicate := FieldIsTrue("isActive")

  /**
   * The predicates `BaseQueryHandler.buildSearchQuery` puts under `$and`: `isActive == true`
   * first unless inactive records are shown, then one `$or` over case-insensitive,
   * unicode-case regexes on name and description when the filter is not blank.
   */
  function BaseSearchPredicates(filter: Option<string>, showInactive: Option<bool>): (r: seq<Predicate>)
    ensures |r| == (if OnlyActive(showInactive) then 1 else 0) + (if FilterGiven(filter) then 1 else 0)
    ensures OnlyActive(showInactive) ==> r[0] == IsActive
    ensures FilterGiven(filter) ==>
      var flags := {CaseInsensitive, UnicodeCase};
      r[|r| - 1] == AnyOf([FieldRegex("name", filter.value, flags), FieldRegex("description", filter.value, flags)])
  {
    var active := if OnlyActive(showInactive) then [IsActive] else [];
    var text := if FilterGiven(filter)
      then [AnyOf([FieldRegex("name", filter.value, {CaseInsensitive, UnicodeCase}),
                   FieldRegex("description", filter.value, {CaseInsensitive, UnicodeCase})])]
      else [];
    active + text
  }

  /**
   * The predicates `StoredFileQueryHandler.buildSearchQuery` puts under `$and`: one `$or`
   * over plain regexes on filename and mimeType first when the filter is not blank, then
   * `isActive == true` unless inactive records are shown.
   */
  function StoredFileSearchPredicates(filter: Option<string>, showInactive: Option<bool>): (r: seq<Predicate>)
    ensures |r| == (if OnlyActive(showInactive) then 1 else 0) + (if FilterGiven(filter) then 1 else 0)
    ensures OnlyActive(showInactive) ==> r[|r| - 1] == IsActive
    ensures FilterGiven(filter) ==>
      r[0] == AnyOf([FieldRegex("filename", filter.value, {}), FieldRegex("mimeType", filter.value, {})])
  {
    var text := if FilterGiven(filter)
      then [AnyOf([FieldRegex("filename", filter.value, {}), FieldRegex("mimeType", filter.value, {})])]
      else [];
    var active := if OnlyActive(showInactive) then [IsActive] else [];
    text + active
  }

  /**
   * `BaseQueryHandler.buildSearchQuery`: collects the `$or` operands and the `$and` operands
   * list by list and registers the `$and` on the root only when it is not empty. A filter
   * that `compiles` rejects as a regular expression throws before anything is registered.
   */
  method BaseBuildSearchQuery(root: Criteria, filter: Option<string>, showInactive: Option<bool>,
                              compiles: string -> bool)
    returns (error: Option<QueryError>)
    requires root.andOperands.None?
    modifies root
    ensures error.Some? <==> FilterGiven(filter) && !compiles(filter.value)
    ensures error.Some? ==> root.andOperands.None?
    ensures error.None? ==> var preds := BaseSearchPredicates(filter, showInactive);
      root.andOperands == if preds == [] then None else Some(preds)
  {
    error := None;
    var orPredicates: seq<Predicate> := [];
    var andPredicates: seq<Predicate> := [];
    if FilterGiven(filter) {
      if !compiles(filter.value) {
        return Some(PatternSyntax);
      }
      var flags := {CaseInsensitive, UnicodeCase};
      orPredicates := orPredicates + [FieldRegex("name", filter.value, flags)];
      orPredicates := orPredicates + [FieldRegex("description", filter.value, flags)];
      assert orPredicates == [FieldRegex("name", filter.value, flags), FieldRegex("description", filter.value, flags)];
    }
    if OnlyActive(showInactive) {
      andPredicates := andPredicates + [IsActive];
    }
    if orPredicates != [] {
      andPredicates := andPredicates + [AnyOf(orPredicates)];
    }
    assert andPredicates == BaseSearchPredicates(filter, showInactive);
    if andPredicates != [] {
      root.AndOperator(andPredicates);
    }
  }

  /** `StoredFileQueryHandler.buildSearchQuery`, the override used for stored files. */
  method StoredFileBuildSearchQuery(root: Criteria, filter: Option<string>, showInactive: Option<bool>)
    requires root.andOperands.None?
    modifies root
    ensures var preds := StoredFileSearchPredicates(filter, showInactive);
      root.andOperands == if preds == [] then None else Some(preds)
  {
    var andPredicates: seq<Predicate> := [];
    if FilterGiven(filter) {
      andPredicates := andPredicates + [AnyOf([FieldRegex("filename", filter.value, {}), FieldRegex("mimeType", filter.value, {})])];
    }
    if OnlyActive(showInactive) {
      andPredicates := andPredicates + [IsActive];
    }
    assert andPredicates == StoredFileSearchPredicates(filter, showInactive);
    if andPredicates != [] {
      root.AndOperator(andPredicates);
    }
  }

  /** With a blank filter and inactive records shown, both builders leave the root untouched. */
  lemma NothingToFilter(filter: Option<string>, showInactive: Option<bool>)
    requires !FilterGiven(filter) && !OnlyActive(showInactive)
    ensures BaseSearchPredicates(filter, showInactive) == []
    ensures StoredFileSearchPredicates(filter, showInactive) == []
  {
  }

  /** The two builders put the same kinds of predicate under `$and`, in opposite order. */
  lemma BuildersDifferInOrder(filter: Option<string>, showInactive: Option<bool>)
    requires FilterGiven(filter) && OnlyActive(showInactive)
    ensures BaseSearchPredicates(filter, showInactive)[0] == IsActive
    ensures StoredFileSearchPredicates(filter, showInactive)[1] == IsActive
    ensures BaseSearchPredicates(filter, showInactive)[1].AnyOf?
    ensures StoredFileSearchPredicates(filter, showInactive)[0].AnyOf?
  {
  }

  /** A Spring Data page: its entities and paging numbers. */
  datatype Page<E> = Page(content: seq<E>, totalPages: int, size: int, number: int,
                          numberOfElements: int, totalElements: int)

  /** `PageDTO`. */
  datatype PageDto<D> = PageDto(content: seq<D>, totalPages: int, size: int, number: int,
                                numberOfElements: int, totalElements: int)

  /**
   * `toDtoPage`: the paging numbers come from the domain page and the content is `data`
   * unchanged (the converted entities, not the domain page's own content).
   */
  method ToDtoPage<E, D>(domain: Page<E>, data: seq<D>) returns (result: PageDto<D>)
    ensures result.totalPages == domain.totalPages && result.size == domain.size
    ensures result.number == domain.number && result.numberOfElements == domain.numberOfElements
    ensures result.totalElements == domain.totalElements
    ensures result.content == data
  {
    result := PageDto([], 0, 0, 0, 0, 0);
    result := result.(totalPages := domain.totalPages);
    result := result.(size := domain.size);
    result := result.(number := domain.number);
    result := result.(numberOfElements := domain.numberOfElements);
    result := result.(totalElements := domain.totalElements);
    result := result.(content := data);
  }
}
