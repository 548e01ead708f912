/**
 * The tile handlers of api/index.php: the checks and INSERT values of
 * `handleCreateTile`, the dynamic SET list of `handleUpdateTile`, the
 * position-to-`order_index` loop of `handleReorderTiles`, and the filter and
 * order of `handleGetPublicTiles`. The decoded JSON body is a map from keys
 * to values and the tiles table a map from id to row; `filter_var` URL
 * validation arrives as the oracle `urlOk`.
 */
module Tiles {
  import opened Wrappers
  import opened PhpStrings
  import opened Sequences
  import Input
  import Session

  // ---------------------------------------------------------------------------
  // Request bodies and PHP's loose semantics over them
  // ---------------------------------------------------------------------------

  /** A value `json_decode($body, true)` can produce; floats and JSON objects are not modelled. */
  datatype Value = Str(s: string) | Num(n: int) | Flag(b: bool) | Null | List(items: seq<Value>)

  /** A decoded request body: the keys present and their values. */
  type Body = map<string, Value>

  /**
   * Passing a value to a `string` parameter of a function of the application
   * without strict types: ints print in decimal, booleans as "1" or "".
   * None is the TypeError that null and arrays raise; nothing catches it,
   * so the request ends in a server error.
   */
  function AsString(v: Value): (r: Option<string>)
    ensures r.None? <==> v.Null? || v.List?
  {
    match v
    case Str(s) => Some(s)
    case Num(n) => Some(IntToDecimal(n))
    case Flag(b) => Some(if b then "1" else "")
    case Null => None
    case List(_) => None
  }

  /** `isset($input[$key])`: present and not null. */
  predicate IsSet(body: Body, key: string) {
    key in body && !body[key].Null?
  }

  /** `$input[$key] ?? $default`. */
  function Coalesce(body: Body, key: string, default: Value): Value {
    if IsSet(body, key) then body[key] else default
  }

  /** `empty()` on a value: "", "0", 0, false, null and the empty array. */
  predicate IsEmptyValue(v: Value) {
    match v
    case Str(s) => IsEmptyString(s)
    case Num(n) => n == 0
    case Flag(b) => !b
    case Null => true
    case List(items) => |items| == 0
  }

  /** `empty($input[$key])`, which is also true for a missing key. */
  predicate EmptyField(body: Body, key: string) {
    key !in body || IsEmptyValue(body[key])
  }

  /** Why a tile request is refused. */
  datatype TileError =
    | Unauthenticated          // 401 from requireAuth
    | InvalidCsrf              // 403
    | FieldRequired(field: string)  // 400
    | InvalidSlug              // 400
    | InvalidUrl               // 400
    | InvalidHex               // 400
    | NoFieldsToUpdate         // 400
    | InvalidIds               // 400
    | TypeFailure              // uncaught TypeError: a null or array passed as a string

  // ---------------------------------------------------------------------------
  // Shared checks
  // ---------------------------------------------------------------------------

  /** A byte of the slug class `[a-z0-9-]`. */
  predicate IsSlugByte(c: char) {
    ('a' <= c <= 'z') || IsDigit(c) || c == '-'
  }

  predicate SlugBytes(s: string) {
    |s| > 0 && forall i :: 0 <= i < |s| ==> IsSlugByte(s[i])
  }

  /** `preg_match('/^[a-z0-9-]+$/', $slug)`; the `$` also matches before a final "\n". */
  predicate ValidSlug(s: string) {
    SlugBytes(s) || SlugBytes(Chomp(s))
  }

  /**
   * What the slug check accepts: lowercase words joined by hyphens, and the
   * same with one trailing newline, but no capitals, slashes or empty slug.
   */
  lemma SlugExamples()
    ensures ValidSlug("my-tile-2")
    ensures ValidSlug("my-tile-2\n")
    ensures !ValidSlug("My-Tile")
    ensures !ValidSlug("a/b")
    ensures !ValidSlug("")
    ensures !ValidSlug("\n")
  {
    assert "My-Tile"[0] == 'M';
    assert "a/b"[1] == '/';
    assert Chomp("\n") == "";
  }

  /**
   * A slug that passes the check is stored as its first `n` bytes without
   * the trailing newline: sanitizing neither trims nor escapes anything else.
   */
  lemma SanitizedSlug(s: string, n: int)
    requires ValidSlug(s) && n >= 0
    ensures Input.SanitizeInput(s, n) == Prefix(Chomp(s), n)
  {
    SlugTrim(s);
    var kept := Prefix(Chomp(s), n);
    assert kept == Chomp(s)[..|kept|];
    assert forall i :: 0 <= i < |kept| ==> IsSlugByte(kept[i]);
    Input.AsciiIsUtf8(kept);
    Input.EscapePlain(kept);
  }

  /** Trimming a valid slug only drops its optional trailing newline. */
  lemma SlugTrim(s: string)
    requires ValidSlug(s)
    ensures SlugBytes(Chomp(s)) && Trim(s) == Chomp(s)
  {
    var c := Chomp(s);
    if SlugBytes(s) {
      assert IsSlugByte(s[|s| - 1]);
      assert c == s;
    }
    assert !IsTrimByte(c[0]) && !IsTrimByte(c[|c| - 1]);
    if c == s {
      Input.TrimClean(c);
    } else {
      assert s == c + "\n";
      TrimFinalNewline(c);
    }
  }

  /** Trimming a clean word with one final newline drops just the newline. */
  lemma TrimFinalNewline(c: string)
    requires |c| > 0 && !IsTrimByte(c[0]) && !IsTrimByte(c[|c| - 1])
    ensures Trim(c + "\n") == c
  {
    var s := c + "\n";
    assert s[0] == c[0] && s[..|s| - 1] == c;
    assert TrimLeft(s, IsTrimByte) == s;
    assert TrimRight(s, IsTrimByte) == TrimRight(c, IsTrimByte);
    assert TrimRight(c, IsTrimByte) == c;
  }

  /** The tiles row a handler writes. */
  datatype Tile = Tile(
    slug: string,
    title: string,
    blurb: string,
    ctaLabel: string,
    targetUrl: Value,
    bgMediaId: Value,
    accentHex: Value,
    orderIndex: int,
    visible: Value,
    publishAt: Value)

  /** `requireAuth()`. */
  function AuthError(s: Session.Session): (r: Option<TileError>)
    ensures r.None? <==> Session.IsAuthenticated(s)
  {
    if Session.IsAuthenticated(s) then None else Some(Unauthenticated)
  }

  /** `validateCSRFToken($input['csrf_token'] ?? '')`. */
  function CsrfError(s: Session.Session, body: Body): (r: Option<TileError>)
    ensures IsSet(body, "csrf_token") && body["csrf_token"].Str?
            ==> (r.None? <==> Session.ValidateCsrfToken(s, body["csrf_token"].s))
    ensures !IsSet(body, "csrf_token") ==> (r.None? <==> Session.ValidateCsrfToken(s, ""))
    ensures r.Some? ==> r.value in {InvalidCsrf, TypeFailure}
  {
    match AsString(Coalesce(body, "csrf_token", Str("")))
    case None => Some(TypeFailure)
    case Some(t) => if Session.ValidateCsrfToken(s, t) then None else Some(InvalidCsrf)
  }

  /** A given value passes a string check: it coerces to a string that `ok` accepts. */
  predicate FieldOk(v: Value, ok: string -> bool) {
    AsString(v).Some? && ok(AsString(v).value)
  }

  /** The refusal for a value that fails a string check: the TypeError for null or an array. */
  function FieldError(v: Value, error: TileError): TileError {
    if AsString(v).None? then TypeFailure else error
  }

  /** A string check on a value that is known to be given: TypeError first, then the check. */
  function StringCheck(v: Value, ok: string -> bool, error: TileError): (r: Option<TileError>)
    ensures r.None? <==> FieldOk(v, ok)
    ensures r.Some? ==> r.value == FieldError(v, error)
  {
    match AsString(v)
    case None => Some(TypeFailure)
    case Some(t) => if ok(t) then None else Some(error)
  }

  /** Checks run in order: the first one that fails decides. */
  function Then(first: Option<TileError>, next: Option<TileError>): Option<TileError> {
    if first.Some? then first else next
  }

  // ---------------------------------------------------------------------------
  // handleUpdateTile
  // ---------------------------------------------------------------------------

  /** The columns an update may set, in the order the SET list is built. */
  const Allowed: seq<string> :=
    ["slug", "title", "blurb", "cta_label", "target_url", "bg_media_id", "accent_hex",
     "order_index", "visible", "publish_at"]

  /** The columns whose values pass through `sanitizeInput`. */
  predicate IsTextColumn(field: string) {
    field == "slug" || field == "title" || field == "blurb" || field == "cta_label"
  }

  /** The `sanitizeInput` limit the update applies: 500 for the blurb, 100 otherwise. */
  function UpdateLimit(field: string): int {
    if field == "blurb" then 500 else 100
  }

  /** One entry of the SET list: a bound column, or `updated_at = datetime('now')`. */
  datatype SetClause = Assign(field: string, value: Value) | UpdatedAtNow

  function Column(c: SetClause): string {
    if c.Assign? then c.field else "updated_at"
  }

  function Columns(cs: seq<SetClause>): (r: seq<string>)
    ensures |r| == |cs| && forall k :: 0 <= k < |cs| ==> r[k] == Column(cs[k])
  {
    seq(|cs|, k requires 0 <= k < |cs| => Column(cs[k]))
  }

  /** The value bound for a present column, or None when sanitizing it raises the TypeError. */
  function BoundValue(field: string, v: Value): Option<Value> {
    if IsTextColumn(field) then
      match AsString(v)
      case None => None
      case Some(t) => Some(Str(Input.SanitizeInput(t, UpdateLimit(field))))
    else Some(v)
  }

  /** A present text column whose value cannot be sanitized. */
  predicate Unbindable(body: Body, field: string) {
    field in body && BoundValue(field, body[field]).None?
  }

  /**
   * The `foreach ($allowed as $field)` loop: every listed column present in
   * the body (`array_key_exists`, so a null value counts) gets a clause with
   * its sanitized or raw value; a text column holding null or an array
   * raises the TypeError instead.
   */
  function Assignments(fields: seq<string>, body: Body): (r: Result<seq<SetClause>, TileError>)
    ensures r.Failure? <==> exists i :: 0 <= i < |fields| && Unbindable(body, fields[i])
    ensures r.Failure? ==> r.error == TypeFailure
    ensures r.Success? ==> forall k :: 0 <= k < |r.value| ==>
              r.value[k].Assign? && r.value[k].field in body
              && BoundValue(r.value[k].field, body[r.value[k].field]) == Some(r.value[k].value)
    decreases |fields|
  {
    if |fields| == 0 then Success([])
    else
      var f := fields[0];
      var rest := Assignments(fields[1..], body);
      assert forall i :: 0 < i < |fields| ==> fields[i] == fields[1..][i - 1];
      if Unbindable(body, f) then Failure(TypeFailure)
      else if rest.Failure? || f !in body then rest
      else Success([Assign(f, BoundValue(f, body[f]).value)] + rest.value)
  }

  lemma ColumnsCons(c: SetClause, rest: seq<SetClause>)
    ensures Columns([c] + rest) == [Column(c)] + Columns(rest)
  {
  }

  /** Exactly the listed columns present in the body get a clause. */
  lemma {:induction false} AssignedColumns(fields: seq<string>, body: Body)
    requires Assignments(fields, body).Success?
    ensures forall f :: f in Columns(Assignments(fields, body).value) <==> f in fields && f in body
    decreases |fields|
  {
    if |fields| > 0 {
      var f := fields[0];
      var tail := fields[1..];
      AssignedColumns(tail, body);
      var rest := Assignments(tail, body).value;
      assert forall g :: g in fields <==> g == f || g in tail;
      if f in body {
        ColumnsCons(Assign(f, BoundValue(f, body[f]).value), rest);
      }
    }
  }

  /** The clauses follow the order of the list. */
  lemma {:induction false} AssignedInOrder(fields: seq<string>, body: Body)
    requires Assignments(fields, body).Success?
    ensures SubsequenceOf(Columns(Assignments(fields, body).value), fields)
    decreases |fields|
  {
    if |fields| > 0 {
      var f := fields[0];
      var tail := fields[1..];
      AssignedInOrder(tail, body);
      AssignedColumns(tail, body);
      var rest := Assignments(tail, body).value;
      if f in body {
        ColumnsCons(Assign(f, BoundValue(f, body[f]).value), rest);
        assert ([f] + Columns(rest))[1..] == Columns(rest);
      } else {
        var cols := Columns(rest);
        assert |cols| == 0 || cols[0] != f;
      }
    }
  }

  /** A list without repeats yields each column at most once. */
  lemma {:induction false} AssignedOnce(fields: seq<string>, body: Body)
    requires Assignments(fields, body).Success? && Distinct(fields)
    ensures Distinct(Columns(Assignments(fields, body).value))
    decreases |fields|
  {
    if |fields| > 0 {
      var f := fields[0];
      var tail := fields[1..];
      assert Distinct(tail) by {
        forall i, j | 0 <= i < j < |tail| ensures tail[i] != tail[j] {
          assert tail[i] == fields[i + 1] && tail[j] == fields[j + 1];
        }
      }
      AssignedOnce(tail, body);
      AssignedColumns(tail, body);
      if f in body {
        var rest := Assignments(tail, body).value;
        assert f !in tail by {
          forall i | 0 <= i < |tail| ensures tail[i] != f {
            assert tail[i] == fields[i + 1];
          }
        }
        ColumnsCons(Assign(f, BoundValue(f, body[f]).value), rest);
      }
    }
  }

  /** The listed columns are all different. */
  lemma AllowedDistinct()
    ensures Distinct(Allowed)
  {
  }

  /** The update's slug check: a given slug matches the slug pattern. */
  predicate UpdateSlugOk(body: Body) {
    !IsSet(body, "slug") || FieldOk(body["slug"], ValidSlug)
  }

  /** The update's colour check: a given, non-empty colour is a hex colour. */
  predicate UpdateHexOk(body: Body) {
    !IsSet(body, "accent_hex") || IsEmptyValue(body["accent_hex"]) || FieldOk(body["accent_hex"], Input.ValidateHex)
  }

  /** The update's URL check: a given URL passes `validateUrl`. */
  predicate UpdateUrlOk(body: Body, urlOk: string -> bool) {
    !IsSet(body, "target_url") || FieldOk(body["target_url"], urlOk)
  }

  /**
   * The checks of `handleUpdateTile` in order: authentication, the CSRF
   * token, then each optional field that is given (a null value is not).
   */
  function UpdateCheckError(s: Session.Session, body: Body, urlOk: string -> bool): (r: Option<TileError>)
    ensures r.None? <==> Session.IsAuthenticated(s) && CsrfError(s, body).None?
                         && UpdateSlugOk(body) && UpdateHexOk(body) && UpdateUrlOk(body, urlOk)
    ensures Session.IsAuthenticated(s) && CsrfError(s, body).None? && !UpdateSlugOk(body)
            ==> r == Some(FieldError(body["slug"], InvalidSlug))
    ensures Session.IsAuthenticated(s) && CsrfError(s, body).None? && UpdateSlugOk(body) && !UpdateHexOk(body)
            ==> r == Some(FieldError(body["accent_hex"], InvalidHex))
    ensures Session.IsAuthenticated(s) && CsrfError(s, body).None? && UpdateSlugOk(body) && UpdateHexOk(body)
            && !UpdateUrlOk(body, urlOk)
            ==> r == Some(FieldError(body["target_url"], InvalidUrl))
    ensures !Session.IsAuthenticated(s) ==> r == Some(Unauthenticated)
    ensures Session.IsAuthenticated(s) && CsrfError(s, body).Some? ==> r == CsrfError(s, body)
    ensures r.None? ==> Session.IsAuthenticated(s) && CsrfError(s, body).None?
    ensures r.None? && IsSet(body, "slug") ==> AsString(body["slug"]).Some? && ValidSlug(AsString(body["slug"]).value)
    ensures r.None? && IsSet(body, "target_url") ==>
              AsString(body["target_url"]).Some? && urlOk(AsString(body["target_url"]).value)
    ensures r.None? && IsSet(body, "accent_hex") && !IsEmptyValue(body["accent_hex"]) ==>
              AsString(body["accent_hex"]).Some? && Input.ValidateHex(AsString(body["accent_hex"]).value)
  {
    var slug := if IsSet(body, "slug") then StringCheck(body["slug"], ValidSlug, InvalidSlug) else None;
    var hex := if IsSet(body, "accent_hex") && !IsEmptyValue(body["accent_hex"])
               then StringCheck(body["accent_hex"], Input.ValidateHex, InvalidHex) else None;
    var url := if IsSet(body, "target_url") then StringCheck(body["target_url"], urlOk, InvalidUrl) else None;
    Then(AuthError(s), Then(CsrfError(s, body), Then(slug, Then(hex, url))))
  }

  /**
   * `handleUpdateTile`: the SET list of the UPDATE it prepares, the
   * assignments of `Assignments` over the allowed columns and then
   * `updated_at`; with no allowed column present the request is refused.
   */
  function UpdateTile(s: Session.Session, body: Body, urlOk: string -> bool): (r: Result<seq<SetClause>, TileError>)
    ensures r.Success? ==> UpdateCheckError(s, body, urlOk).None? && Assignments(Allowed, body).Success?
                           && |Assignments(Allowed, body).value| > 0
                           && r.value == Assignments(Allowed, body).value + [UpdatedAtNow]
    ensures r == Failure(NoFieldsToUpdate)
            <==> UpdateCheckError(s, body, urlOk).None? && forall f :: f in Allowed ==> f !in body
    ensures UpdateCheckError(s, body, urlOk).None? && (exists f :: f in Allowed && Unbindable(body, f))
            ==> r == Failure(TypeFailure)
    ensures UpdateCheckError(s, body, urlOk).Some? ==> r == Failure(UpdateCheckError(s, body, urlOk).value)
    ensures r.Success? <==> UpdateCheckError(s, body, urlOk).None? && Assignments(Allowed, body).Success?
                            && exists f :: f in Allowed && f in body
  {
    var err := UpdateCheckError(s, body, urlOk);
    if err.Some? then Failure(err.value)
    else
      var a := Assignments(Allowed, body);
      if a.Failure? then Failure(a.error)
      else
        AssignedColumns(Allowed, body);
        if |a.value| == 0 then
          assert forall f :: f in Allowed ==> f !in body by {
            assert forall f :: f in Allowed && f in body ==> f in Columns(a.value);
          }
          Failure(NoFieldsToUpdate)
        else
          assert Columns(a.value)[0] in Allowed && Columns(a.value)[0] in body;
          Success(a.value + [UpdatedAtNow])
  }

  /**
   * A successful update sets exactly the allowed columns present in the
   * body, in allowed order, and then `updated_at`.
   */
  lemma UpdateSetList(s: Session.Session, body: Body, urlOk: string -> bool)
    requires UpdateTile(s, body, urlOk).Success?
    ensures var cs := UpdateTile(s, body, urlOk).value;
            |cs| >= 2 && cs[|cs| - 1] == UpdatedAtNow
            && (forall f :: f in Columns(cs[..|cs| - 1]) <==> f in Allowed && f in body)
            && SubsequenceOf(Columns(cs[..|cs| - 1]), Allowed)
  {
    var cs := UpdateTile(s, body, urlOk).value;
    assert cs[..|cs| - 1] == Assignments(Allowed, body).value;
    AssignedColumns(Allowed, body);
    AssignedInOrder(Allowed, body);
  }

  /** No column is set twice in one update. */
  lemma UpdateColumnsDistinct(s: Session.Session, body: Body, urlOk: string -> bool)
    requires UpdateTile(s, body, urlOk).Success?
    ensures Distinct(Columns(UpdateTile(s, body, urlOk).value))
  {
    var a := Assignments(Allowed, body).value;
    assert UpdateTile(s, body, urlOk).value == a + [UpdatedAtNow];
    assert Distinct(Columns(a)) by {
      AllowedDistinct();
      AssignedOnce(Allowed, body);
    }
    assert "updated_at" !in Columns(a) by {
      AssignedColumns(Allowed, body);
      UpdatedAtNotAllowed(Columns(a));
    }
    assert Columns(a + [UpdatedAtNow]) == Columns(a) + ["updated_at"];
    DistinctSnoc(Columns(a), "updated_at");
  }

  /** `updated_at` is not an allowed column, so it is never bound twice. */
  lemma UpdatedAtNotAllowed(cols: seq<string>)
    requires forall f :: f in cols ==> f in Allowed
    ensures "updated_at" !in cols
  {
  }

  // ---------------------------------------------------------------------------
  // handleReorderTiles
  // ---------------------------------------------------------------------------

  /** The whitespace PHP 8 allows around a numeric string. */
  predicate IsNumericSpace(c: char) {
    c == ' ' || c == '\t' || c == '\n' || c == '\r' || c as int == 11 || c as int == 12
  }

  /** The text of a numeric string without its surrounding whitespace. */
  function NumericCore(s: string): string {
    TrimRight(TrimLeft(s, IsNumericSpace), IsNumericSpace)
  }

  /** An optional sign and at least one digit. */
  predicate IntegerText(c: string) {
    |c| > 0 && if c[0] == '+' || c[0] == '-' then |c| > 1 && AllDigits(c[1..]) else AllDigits(c)
  }

  /** `is_numeric($v)` for integer-valued input: ints, and integer strings within whitespace. */
  predicate IsNumeric(v: Value) {
    v.Num? || (v.Str? && IntegerText(NumericCore(v.s)))
  }

  /** `(int)$v` of a numeric value. */
  function ToInt(v: Value): int
    requires IsNumeric(v)
  {
    if v.Num? then v.n
    else
      var c := NumericCore(v.s);
      if c[0] == '-' then 0 - DecimalValue(c[1..]) as int
      else if c[0] == '+' then DecimalValue(c[1..])
      else DecimalValue(c)
  }

  /** The decimal text of any int is numeric and converts back to it. */
  lemma NumericTextRoundTrip(n: int)
    ensures NumericCore(IntToDecimal(n)) == IntToDecimal(n)
    ensures IsNumeric(Str(IntToDecimal(n)))
    ensures ToInt(Str(IntToDecimal(n))) == n
  {
    var t := IntToDecimal(n);
    var d := NatToDecimal(if n < 0 then -n else n);
    assert TrimLeft(t, IsNumericSpace) == t by { assert !IsNumericSpace(t[0]); }
    assert TrimRight(t, IsNumericSpace) == t by { assert !IsNumericSpace(t[|t| - 1]); }
    DecimalRoundTrip(if n < 0 then -n else n);
    if n < 0 {
      assert t[1..] == d;
    } else {
      assert t == d;
    }
  }

  /** The loop's `is_numeric($id)` test and `(int)$id` cast: the id an entry names, if any. */
  function ParseId(v: Value): Option<int> {
    if IsNumeric(v) then Some(ToInt(v)) else None
  }

  function ParseIds(ids: seq<Value>): (r: seq<Option<int>>)
    ensures |r| == |ids| && forall q :: 0 <= q < |ids| ==> r[q] == ParseId(ids[q])
  {
    seq(|ids|, q requires 0 <= q < |ids| => ParseId(ids[q]))
  }

  /** The last position naming `id`: the UPDATE that runs last for it. */
  function LastPosition(named: seq<Option<int>>, id: int): (r: Option<nat>)
    ensures r.Some? ==> r.value < |named| && named[r.value] == Some(id)
                        && forall q :: r.value < q < |named| ==> named[q] != Some(id)
    ensures r.None? ==> forall q :: 0 <= q < |named| ==> named[q] != Some(id)
    decreases |named|
  {
    if |named| == 0 then None
    else if named[|named| - 1] == Some(id) then Some(|named| - 1)
    else LastPosition(named[..|named| - 1], id)
  }

  /** Each tile named in `named` moved to the position of its last mention. */
  function Placed(tiles: map<int, Tile>, named: seq<Option<int>>): map<int, Tile> {
    map id | id in tiles :: if LastPosition(named, id).Some?
                            then tiles[id].(orderIndex := LastPosition(named, id).value)
                            else tiles[id]
  }

  /**
   * The table after the loop, stated per tile: a tile named in `ids` gets
   * the position of its last mention as `order_index`; every other tile and
   * every other column is left alone, and no row appears or disappears.
   */
  function Reordered(tiles: map<int, Tile>, ids: seq<Value>): (r: map<int, Tile>)
    ensures r.Keys == tiles.Keys
    ensures forall id :: id in tiles ==> r[id] == tiles[id].(orderIndex := r[id].orderIndex)
    ensures forall id :: id in tiles && (forall q :: 0 <= q < |ids| ==> ParseId(ids[q]) != Some(id))
                         ==> r[id] == tiles[id]
    ensures forall id, p :: id in tiles && 0 <= p < |ids| && ParseId(ids[p]) == Some(id)
                            && (forall q :: p < q < |ids| ==> ParseId(ids[q]) != Some(id))
                            ==> r[id].orderIndex == p
  {
    var named := ParseIds(ids);
    var r := Placed(tiles, named);
    forall id, p | id in tiles && 0 <= p < |ids| && ParseId(ids[p]) == Some(id)
                   && (forall q :: p < q < |ids| ==> ParseId(ids[q]) != Some(id))
      ensures r[id].orderIndex == p
    {
      var last := LastPosition(named, id);
      assert named[p] == Some(id);
      assert last.Some?;
      assert last.value == p;
    }
    r
  }

  /** One pass of the loop body: `UPDATE tiles SET order_index = :order WHERE id = :id` for a numeric entry. */
  function PlaceStep(tiles: map<int, Tile>, id: Option<int>, position: int): map<int, Tile> {
    if id.Some? && id.value in tiles then tiles[id.value := tiles[id.value].(orderIndex := position)]
    else tiles
  }

  /** One more entry is one more loop pass. */
  lemma PlacedExtend(tiles: map<int, Tile>, named: seq<Option<int>>, x: Option<int>)
    ensures Placed(tiles, named + [x]) == PlaceStep(Placed(tiles, named), x, |named|)
  {
    var left := Placed(tiles, named + [x]);
    var right := PlaceStep(Placed(tiles, named), x, |named|);
    forall id | id in tiles ensures left[id] == right[id] {
      LastPositionSnoc(named, x, id);
    }
    assert left.Keys == right.Keys;
  }

  lemma LastPositionSnoc(named: seq<Option<int>>, x: Option<int>, id: int)
    ensures LastPosition(named + [x], id) == if x == Some(id) then Some(|named|) else LastPosition(named, id)
  {
    assert (named + [x])[..|named|] == named;
  }

  /** The `foreach ($ids as $order => $id)` loop, one UPDATE per numeric entry. */
  method ApplyReorder(tiles: map<int, Tile>, ids: seq<Value>) returns (r: map<int, Tile>)
    ensures r == Reordered(tiles, ids)
  {
    r := PlaceAll(tiles, ParseIds(ids));
    ReorderedIsPlaced(tiles, ids);
  }

  /** The loop over the parsed entries: position `i` places the tile entry `i` names. */
  method PlaceAll(tiles: map<int, Tile>, named: seq<Option<int>>) returns (r: map<int, Tile>)
    ensures r == Placed(tiles, named)
  {
    r := tiles;
    var i := 0;
    assert named[..0] == [];
    while i < |named|
      invariant 0 <= i <= |named|
      invariant r == Placed(tiles, named[..i])
    {
      PlacedPrefix(tiles, named, i);
      r := PlaceStep(r, named[i], i);
      i := i + 1;
    }
    assert named[..|named|] == named;
  }

  lemma ReorderedIsPlaced(tiles: map<int, Tile>, ids: seq<Value>)
    ensures Reordered(tiles, ids) == Placed(tiles, ParseIds(ids))
  {
  }

  lemma PlacedPrefix(tiles: map<int, Tile>, named: seq<Option<int>>, i: nat)
    requires i < |named|
    ensures Placed(tiles, named[..i + 1]) == PlaceStep(Placed(tiles, named[..i]), named[i], i)
  {
    assert named[..i + 1] == named[..i] + [named[i]];
    PlacedExtend(tiles, named[..i], named[i]);
  }

  /**
   * `handleReorderTiles`: after the checks, `ids ?? []` must be an array;
   * the table is then updated as `Reordered` states.
   */
  function ReorderTiles(s: Session.Session, body: Body, tiles: map<int, Tile>): (r: Result<map<int, Tile>, TileError>)
    ensures r.Success? <==> AuthError(s).None? && CsrfError(s, body).None?
                            && Coalesce(body, "ids", List([])).List?
    ensures r.Success? ==> r.value == Reordered(tiles, Coalesce(body, "ids", List([])).items)
    ensures AuthError(s).None? && CsrfError(s, body).None? && IsSet(body, "ids") && !body["ids"].List?
            ==> r == Failure(InvalidIds)
  {
    var err := Then(AuthError(s), CsrfError(s, body));
    if err.Some? then Failure(err.value)
    else
      var ids := Coalesce(body, "ids", List([]));
      if !ids.List? then Failure(InvalidIds) else Success(Reordered(tiles, ids.items))
  }

  /**
   * Positions are not compacted: with a non-numeric entry in between, the
   * tile named after it keeps its array position; a repeated id takes its
   * last position, a padded numeric string counts, and unnamed tiles stay.
   */
  lemma ReorderExample(tiles: map<int, Tile>, ids: seq<Value>, a: int, b: int, c: int)
    requires a != b && b != c && a != c && tiles.Keys == {a, b, c}
    requires ids == [Num(a), Str("x"), Str(" " + IntToDecimal(b) + " "), Num(a)]
    ensures Reordered(tiles, ids)[b] == tiles[b].(orderIndex := 2)
    ensures Reordered(tiles, ids)[a] == tiles[a].(orderIndex := 3)
    ensures Reordered(tiles, ids)[c] == tiles[c]
  {
    ExampleIds(ids, a, b);
    ReorderOfParsed(tiles, ids, a, b, c);
  }

  lemma ReorderOfParsed(tiles: map<int, Tile>, ids: seq<Value>, a: int, b: int, c: int)
    requires a != b && b != c && a != c && tiles.Keys == {a, b, c} && |ids| == 4
    requires ParseId(ids[0]) == Some(a) && ParseId(ids[1]).None?
    requires ParseId(ids[2]) == Some(b) && ParseId(ids[3]) == Some(a)
    ensures Reordered(tiles, ids)[b] == tiles[b].(orderIndex := 2)
    ensures Reordered(tiles, ids)[a] == tiles[a].(orderIndex := 3)
    ensures Reordered(tiles, ids)[c] == tiles[c]
  {
    var r := Reordered(tiles, ids);
    assert forall q :: 0 <= q < |ids| ==> ParseId(ids[q]) != Some(c);
    assert forall q :: 2 < q < |ids| ==> ParseId(ids[q]) != Some(b) by {
      assert ParseId(ids[3]) != Some(b);
    }
    assert r[b].orderIndex == 2;
    assert r[a].orderIndex == 3;
    assert r[b] == tiles[b].(orderIndex := r[b].orderIndex);
    assert r[a] == tiles[a].(orderIndex := r[a].orderIndex);
  }

  lemma ExampleIds(ids: seq<Value>, a: int, b: int)
    requires ids == [Num(a), Str("x"), Str(" " + IntToDecimal(b) + " "), Num(a)]
    ensures ParseId(ids[0]) == Some(a) && ParseId(ids[1]).None?
    ensures ParseId(ids[2]) == Some(b) && ParseId(ids[3]) == Some(a)
  {
    PaddedNumeric(b);
    NotNumericX();
  }

  /** A decimal with a blank on each side is numeric and converts to its number. */
  lemma PaddedNumeric(n: int)
    ensures IsNumeric(Str(" " + IntToDecimal(n) + " "))
    ensures ToInt(Str(" " + IntToDecimal(n) + " ")) == n
  {
    var d := IntToDecimal(n);
    PaddedCore(d);
    NumericTextRoundTrip(n);
  }

  /** Trimming removes one blank on each side of text that has no blank at its ends. */
  lemma PaddedCore(d: string)
    requires |d| > 0 && !IsNumericSpace(d[0]) && !IsNumericSpace(d[|d| - 1])
    ensures NumericCore(" " + d + " ") == d
  {
    var t := " " + d + " ";
    assert t[1..] == d + " ";
    assert TrimLeft(d + " ", IsNumericSpace) == d + " " by { assert (d + " ")[0] == d[0]; }
    assert (d + " ")[..|d|] == d;
    assert TrimRight(d, IsNumericSpace) == d;
  }

  lemma NotNumericX()
    ensures !IsNumeric(Str("x"))
  {
    assert !IsNumericSpace("x"[0]);
    assert NumericCore("x") == "x";
  }

  // ---------------------------------------------------------------------------
  // handleCreateTile
  // ---------------------------------------------------------------------------

  /** `SELECT MAX(order_index) ... ?? 0`, plus one: the new tile's position. */
  function NextOrderIndex(orders: seq<int>): (r: int)
    ensures forall i :: 0 <= i < |orders| ==> orders[i] < r
    ensures |orders| == 0 ==> r == 1
    ensures |orders| > 0 ==> exists i :: 0 <= i < |orders| && r == orders[i] + 1
    decreases |orders|
  {
    if |orders| == 0 then 1
    else if |orders| == 1 then orders[0] + 1
    else
      var rest := NextOrderIndex(orders[1..]);
      assert forall i :: 0 < i < |orders| ==> orders[i] == orders[1..][i - 1];
      if orders[0] + 1 >= rest then orders[0] + 1 else rest
  }

  /** None of the three required fields is `empty()`. */
  predicate CreateRequiredGiven(body: Body) {
    !EmptyField(body, "slug") && !EmptyField(body, "title") && !EmptyField(body, "target_url")
  }

  /** The create's colour check: a non-empty colour is a hex colour. */
  predicate CreateHexOk(body: Body) {
    EmptyField(body, "accent_hex") || FieldOk(body["accent_hex"], Input.ValidateHex)
  }

  /**
   * The checks of `handleCreateTile` in order: authentication, the CSRF
   * token, the three required fields (`empty()`), then slug, URL and, when
   * not empty, the accent colour.
   */
  function CreateCheckError(s: Session.Session, body: Body, urlOk: string -> bool): (r: Option<TileError>)
    ensures r.None? <==> Session.IsAuthenticated(s) && CsrfError(s, body).None? && CreateRequiredGiven(body)
                         && FieldOk(body["slug"], ValidSlug) && FieldOk(body["target_url"], urlOk)
                         && CreateHexOk(body)
    ensures Session.IsAuthenticated(s) && CsrfError(s, body).None? && CreateRequiredGiven(body)
            && !FieldOk(body["slug"], ValidSlug)
            ==> r == Some(FieldError(body["slug"], InvalidSlug))
    ensures Session.IsAuthenticated(s) && CsrfError(s, body).None? && CreateRequiredGiven(body)
            && FieldOk(body["slug"], ValidSlug) && !FieldOk(body["target_url"], urlOk)
            ==> r == Some(FieldError(body["target_url"], InvalidUrl))
    ensures Session.IsAuthenticated(s) && CsrfError(s, body).None? && CreateRequiredGiven(body)
            && FieldOk(body["slug"], ValidSlug) && FieldOk(body["target_url"], urlOk) && !CreateHexOk(body)
            ==> r == Some(FieldError(body["accent_hex"], InvalidHex))
    ensures !Session.IsAuthenticated(s) ==> r == Some(Unauthenticated)
    ensures Session.IsAuthenticated(s) && CsrfError(s, body).Some? ==> r == CsrfError(s, body)
    ensures Session.IsAuthenticated(s) && CsrfError(s, body).None? ==>
              (EmptyField(body, "slug") ==> r == Some(FieldRequired("slug")))
              && (!EmptyField(body, "slug") && EmptyField(body, "title") ==> r == Some(FieldRequired("title")))
              && (!EmptyField(body, "slug") && !EmptyField(body, "title") && EmptyField(body, "target_url")
                  ==> r == Some(FieldRequired("target_url")))
    ensures r.None? ==> Session.IsAuthenticated(s) && CsrfError(s, body).None?
                        && !EmptyField(body, "slug") && !EmptyField(body, "title") && !EmptyField(body, "target_url")
    ensures r.None? ==> AsString(body["slug"]).Some? && ValidSlug(AsString(body["slug"]).value)
    ensures r.None? ==> AsString(body["target_url"]).Some? && urlOk(AsString(body["target_url"]).value)
    ensures r.None? && !EmptyField(body, "accent_hex") ==>
              AsString(body["accent_hex"]).Some? && Input.ValidateHex(AsString(body["accent_hex"]).value)
  {
    var required :=
      if EmptyField(body, "slug") then Some(FieldRequired("slug"))
      else if EmptyField(body, "title") then Some(FieldRequired("title"))
      else if EmptyField(body, "target_url") then Some(FieldRequired("target_url"))
      else None;
    var slug := if "slug" in body then StringCheck(body["slug"], ValidSlug, InvalidSlug) else None;
    var url := if "target_url" in body then StringCheck(body["target_url"], urlOk, InvalidUrl) else None;
    var hex := if !EmptyField(body, "accent_hex")
               then StringCheck(body["accent_hex"], Input.ValidateHex, InvalidHex) else None;
    Then(AuthError(s), Then(CsrfError(s, body), Then(required, Then(slug, Then(url, hex)))))
  }

  /** `sanitizeInput($v, $limit)` of a value, or the TypeError. */
  function SanitizeValue(v: Value, limit: int): Result<string, TileError> {
    match AsString(v)
    case None => Failure(TypeFailure)
    case Some(t) => Success(Input.SanitizeInput(t, limit))
  }

  /**
   * `handleCreateTile`: the row it inserts. Slug and call-to-action are cut
   * at 50 bytes, the title at 100, the blurb at 500; missing optional
   * columns take their defaults, and the tile goes after every existing one
   * (`orders` is the `order_index` column of the table).
   */
  function CreateTile(s: Session.Session, body: Body, urlOk: string -> bool, orders: seq<int>)
    : (r: Result<Tile, TileError>)
    ensures CreateCheckError(s, body, urlOk).Some? ==> r == Failure(CreateCheckError(s, body, urlOk).value)
    ensures CreateCheckError(s, body, urlOk).None? && r.Failure? ==> r.error == TypeFailure
    ensures r.Success? ==> CreateCheckError(s, body, urlOk).None?
    ensures r.Success? ==> r.value.orderIndex == NextOrderIndex(orders)
    ensures r.Success? ==> r.value.targetUrl == body["target_url"]
    ensures r.Success? ==> AsString(body["slug"]).Some?
                           && r.value.slug == Input.SanitizeInput(AsString(body["slug"]).value, 50)
    ensures r.Success? ==> AsString(body["title"]).Some?
                           && r.value.title == Input.SanitizeInput(AsString(body["title"]).value, 100)
    ensures r.Success? && !IsSet(body, "blurb") ==> r.value.blurb == ""
    ensures r.Success? && !IsSet(body, "cta_label") ==> r.value.ctaLabel == "Visit"
    ensures r.Success? && !IsSet(body, "visible") ==> r.value.visible == Num(1)
    ensures r.Success? && !IsSet(body, "publish_at") ==> r.value.publishAt == Null
    ensures r.Success? && !IsSet(body, "bg_media_id") ==> r.value.bgMediaId == Null
    ensures r.Success? <==>
              && CreateCheckError(s, body, urlOk).None?
              && AsString(body["title"]).Some?
              && (IsSet(body, "blurb") ==> AsString(body["blurb"]).Some?)
              && (IsSet(body, "cta_label") ==> AsString(body["cta_label"]).Some?)
    ensures r.Success? && IsSet(body, "blurb") ==>
              AsString(body["blurb"]).Some? && r.value.blurb == Input.SanitizeInput(AsString(body["blurb"]).value, 500)
    ensures r.Success? && IsSet(body, "cta_label") ==>
              AsString(body["cta_label"]).Some?
              && r.value.ctaLabel == Input.SanitizeInput(AsString(body["cta_label"]).value, 50)
    ensures r.Success? && IsSet(body, "accent_hex") ==> r.value.accentHex == body["accent_hex"]
    ensures r.Success? && !IsSet(body, "accent_hex") ==> r.value.accentHex == Null
    ensures r.Success? && IsSet(body, "bg_media_id") ==> r.value.bgMediaId == body["bg_media_id"]
    ensures r.Success? && IsSet(body, "visible") ==> r.value.visible == body["visible"]
    ensures r.Success? && IsSet(body, "publish_at") ==> r.value.publishAt == body["publish_at"]
  {
    var err := CreateCheckError(s, body, urlOk);
    if err.Some? then Failure(err.value)
    else
      var slug := SanitizeValue(body["slug"], 50);
      var title := SanitizeValue(body["title"], 100);
      var blurb := SanitizeValue(Coalesce(body, "blurb", Str("")), 500);
      var cta := SanitizeValue(Coalesce(body, "cta_label", Str("Visit")), 50);
      if slug.Failure? || title.Failure? || blurb.Failure? || cta.Failure? then Failure(TypeFailure)
      else
        DefaultBlurb();
        DefaultCta("Visit");
        Success(Tile(slug.value, title.value, blurb.value, cta.value, body["target_url"],
                     Coalesce(body, "bg_media_id", Null), Coalesce(body, "accent_hex", Null),
                     NextOrderIndex(orders), Coalesce(body, "visible", Num(1)),
                     Coalesce(body, "publish_at", Null)))
  }

  /** The default blurb survives sanitizing unchanged. */
  lemma DefaultBlurb()
    ensures Input.SanitizeInput("", 500) == ""
  {
    Input.SanitizePlain("", 500);
  }

  /** The default call-to-action survives sanitizing unchanged. */
  lemma DefaultCta(t: string)
    requires t == "Visit"
    ensures Input.SanitizeInput(t, 50) == t
  {
    assert forall i :: 0 <= i < |t| ==> !Input.IsSpecial(t[i]) && t[i] as int < 0x80;
    assert !IsTrimByte(t[0]) && !IsTrimByte(t[4]);
    Input.SanitizePlain(t, 50);
  }

  // ---------------------------------------------------------------------------
  // handleGetPublicTiles
  // ---------------------------------------------------------------------------

  /** The columns the public query filters and orders on; `visible` is compared with `= 1`. */
  datatype Listed = Listed(id: int, orderIndex: int, visible: int, publishAt: Option<int>)

  /** `visible = 1 AND (publish_at IS NULL OR publish_at <= now)`. */
  predicate IsPublic(t: Listed, now: int) {
    t.visible == 1 && (t.publishAt.None? || t.publishAt.value <= now)
  }

  /** The WHERE clause: each public row with its multiplicity, no other row. */
  function PublicRows(rows: seq<Listed>, now: int): (r: seq<Listed>)
    ensures forall t :: multiset(r)[t] == if IsPublic(t, now) then multiset(rows)[t] else 0
    decreases |rows|
  {
    if |rows| == 0 then []
    else
      var rest := PublicRows(rows[1..], now);
      assert rows == [rows[0]] + rows[1..];
      if IsPublic(rows[0], now) then [rows[0]] + rest else rest
  }

  predicate SortedByOrder(s: seq<Listed>) {
    forall i, j :: 0 <= i < j < |s| ==> s[i].orderIndex <= s[j].orderIndex
  }

  function Insert(x: Listed, s: seq<Listed>): (r: seq<Listed>)
    requires SortedByOrder(s)
    ensures SortedByOrder(r)
    ensures multiset(r) == multiset(s) + multiset{x}
    ensures |s| > 0 ==> r[0] == x || r[0] == s[0]
    decreases |s|
  {
    if |s| == 0 then [x]
    else if x.orderIndex <= s[0].orderIndex then
      SortedCons(x, s);
      [x] + s
    else
      SortedTail(s);
      var rest := Insert(x, s[1..]);
      assert s == [s[0]] + s[1..];
      assert |s| > 1 ==> s[0].orderIndex <= s[1].orderIndex;
      SortedCons(s[0], rest);
      [s[0]] + rest
  }

  lemma SortedCons(a: Listed, s: seq<Listed>)
    requires SortedByOrder(s) && (|s| == 0 || a.orderIndex <= s[0].orderIndex)
    ensures SortedByOrder([a] + s)
  {
    var t := [a] + s;
    forall i, j | 0 <= i < j < |t| ensures t[i].orderIndex <= t[j].orderIndex {
      if i == 0 && j > 1 { assert t[j] == s[j - 1] && s[0].orderIndex <= s[j - 1].orderIndex; }
    }
  }

  lemma SortedTail(s: seq<Listed>)
    requires SortedByOrder(s) && |s| > 0
    ensures SortedByOrder(s[1..])
  {
  }

  /** `ORDER BY order_index ASC`; the order among equal positions is left open. */
  function SortByOrder(s: seq<Listed>): (r: seq<Listed>)
    ensures SortedByOrder(r)
    ensures multiset(r) == multiset(s)
    decreases |s|
  {
    if |s| == 0 then []
    else
      assert s == [s[0]] + s[1..];
      Insert(s[0], SortByOrder(s[1..]))
  }

  /**
   * The rows `handleGetPublicTiles` lists: exactly the public ones, each as
   * often as it is stored, by ascending `order_index`.
   */
  function PublicTiles(rows: seq<Listed>, now: int): (r: seq<Listed>)
    ensures SortedByOrder(r)
    ensures forall t :: multiset(r)[t] == if IsPublic(t, now) then multiset(rows)[t] else 0
    ensures forall t :: t in r <==> t in rows && IsPublic(t, now)
  {
    SortByOrder(PublicRows(rows, now))
  }
}
