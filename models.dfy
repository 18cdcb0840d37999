/** The example models of `models/examples.py`: the pagination arithmetic
    and the field constraints and validators, each violation a validation
    error (a `ValueError`). */
module Models {
  import opened Wrappers
  import opened Text
  import CommonUtils
  import PyDict
  import Values

  // ---------------------------------------------------------------------
  // PaginatedResponse

  datatype Page<T> = Page(items: seq<T>, total: int, page: int, pageSize: int)

  /** The field bounds of `PaginatedResponse`. */
  predicate ValidPage<T>(p: Page<T>) {
    p.total >= 0 && p.page >= 1 && 1 <= p.pageSize <= 100
  }

  /** Constructing a `PaginatedResponse`. */
  function NewPage<T>(items: seq<T>, total: int, page: int, pageSize: int): (r: Result<Page<T>>)
    ensures r.Ok? <==> total >= 0 && page >= 1 && 1 <= pageSize <= 100
    ensures r.Ok? ==> ValidPage(r.value) && r.value == Page(items, total, page, pageSize)
    ensures r.Err? ==> r.error == ValueError
  {
    if total >= 0 && page >= 1 && 1 <= pageSize <= 100 then Ok(Page(items, total, page, pageSize))
    else Err(ValueError)
  }

  /** `total_pages`: `ceil(total / page_size)`. */
  function TotalPages<T>(p: Page<T>): (n: nat)
    requires ValidPage(p)
    ensures n * p.pageSize >= p.total
    ensures p.total > 0 ==> (n - 1) * p.pageSize < p.total
    ensures p.total == 0 ==> n == 0
  {
    var n := (p.total + p.pageSize - 1) / p.pageSize;
    assert n * p.pageSize + (p.total + p.pageSize - 1) % p.pageSize == p.total + p.pageSize - 1;
    n
  }

  /** `has_next`. */
  function HasNext<T>(p: Page<T>): bool
    requires ValidPage(p)
  {
    p.page < TotalPages(p)
  }

  /** `has_prev`. */
  function HasPrev<T>(p: Page<T>): (b: bool)
    requires ValidPage(p)
    ensures b <==> p.page != 1
  {
    p.page > 1
  }

  /** There is a next page exactly when items remain after the current
      one. */
  lemma NextMeansMore<T>(p: Page<T>)
    requires ValidPage(p)
    ensures HasNext(p) <==> p.page * p.pageSize < p.total
  {
    var n := TotalPages(p);
    if p.page < n {
      MulMonotone(p.page, n - 1, p.pageSize);
    } else {
      MulMonotone(n, p.page, p.pageSize);
    }
  }

  lemma MulMonotone(a: int, b: int, c: nat)
    requires a <= b
    ensures a * c <= b * c
  {
    assert b * c - a * c == (b - a) * c;
  }

  // ---------------------------------------------------------------------
  // User

  /** `[a-zA-Z0-9_]`. */
  predicate IsWordChar(c: char) { IsAlnumChar(c) || c == '_' }

  /** `username_alphanumeric`: what is left after deleting `_` must be
      alphanumeric and non-empty. */
  function UsernameAlphanumeric(v: string): (r: Result<string>)
    ensures r.Ok? ==> r.value == v
    ensures r.Err? ==> r.error == ValueError
  {
    if IsAlnum(ReplaceAll(v, "_", "")) then Ok(v) else Err(ValueError)
  }

  /** The `username` field: 3 to 50 characters matching `[a-zA-Z0-9_]+`,
      then the validator. */
  function ValidateUsername(v: string): (r: Result<string>)
    ensures r.Ok? <==> 3 <= |v| <= 50 && (forall k :: 0 <= k < |v| ==> IsWordChar(v[k]))
                       && exists k :: 0 <= k < |v| && IsAlnumChar(v[k])
    ensures r.Ok? ==> r.value == v
    ensures r.Err? ==> r.error == ValueError
  {
    if !(3 <= |v| <= 50) || !(forall k :: 0 <= k < |v| ==> IsWordChar(v[k])) then Err(ValueError)
    else
      DeletedAlnum(v, '_', '_');
      UsernameAlphanumeric(v)
  }

  /** After deleting `a` (and `b`) from a string made of letters, digits,
      `a` and `b`, what is left is alphanumeric exactly when some letter or
      digit was there. */
  lemma DeletedAlnum(v: string, a: char, b: char)
    requires !IsAlnumChar(a) && !IsAlnumChar(b)
    requires forall k :: 0 <= k < |v| ==> IsAlnumChar(v[k]) || v[k] == a || v[k] == b
    ensures IsAlnum(ReplaceAll(ReplaceAll(v, [a], []), [b], [])) <==> exists k :: 0 <= k < |v| && IsAlnumChar(v[k])
    ensures a == b ==> ReplaceAll(ReplaceAll(v, [a], []), [b], []) == ReplaceAll(v, [a], [])
  {
    ReplaceDelete(v, a);
    var once := DeleteChar(v, a);
    ReplaceDelete(once, b);
    if a == b {
      DeleteAbsent(once, b);
    }
    KeptAlnum(v, DeleteChar(once, b), a, b);
  }

  /** What survives the deletions is alphanumeric exactly when some letter or
      digit was there. */
  lemma KeptAlnum(v: string, w: string, a: char, b: char)
    requires !IsAlnumChar(a) && !IsAlnumChar(b)
    requires forall k :: 0 <= k < |v| ==> IsAlnumChar(v[k]) || v[k] == a || v[k] == b
    requires forall x :: x in w <==> x in v && x != a && x != b
    ensures IsAlnum(w) <==> exists k :: 0 <= k < |v| && IsAlnumChar(v[k])
  {
    forall k | 0 <= k < |w| ensures IsAlnumChar(w[k]) {
      assert w[k] in v;
    }
    if exists k :: 0 <= k < |v| && IsAlnumChar(v[k]) {
      var k :| 0 <= k < |v| && IsAlnumChar(v[k]);
      assert v[k] in w;
    }
    if IsAlnum(w) {
      assert w[0] in v;
    }
  }

  /** Constructing a `User`: `id >= 1`, the username rules, the email
      pattern matched in full, and at most 100 characters of full name. */
  function NewUser(id: int, username: string, email: string, fullName: Option<string>, isActive: bool): (r: Result<(int, string, string, Option<string>, bool)>)
    ensures r.Ok? <==> id >= 1 && ValidateUsername(username).Ok? && CommonUtils.EmailShape(email)
                       && (fullName.Some? ==> |fullName.value| <= 100)
    ensures r.Ok? ==> r.value == (id, username, email, fullName, isActive)
  {
    if id >= 1 && ValidateUsername(username).Ok? && CommonUtils.IsEmailShape(email)
       && (fullName.Some? ==> |fullName.value| <= 100)
    then Ok((id, username, email, fullName, isActive))
    else Err(ValueError)
  }

  // ---------------------------------------------------------------------
  // ConfigModel

  /** `validate_app_name`: what is left after deleting `-` and `_` must be
      alphanumeric and non-empty. */
  function ValidateAppNameChars(v: string): (r: Result<string>)
    ensures r.Ok? ==> r.value == v
  {
    if IsAlnum(ReplaceAll(ReplaceAll(v, "-", ""), "_", "")) then Ok(v) else Err(ValueError)
  }

  /** The `app_name` field: 1 to 100 characters, then the validator. */
  function ValidateAppName(v: string): (r: Result<string>)
    ensures r.Ok? <==> 1 <= |v| <= 100 && (forall k :: 0 <= k < |v| ==> IsAlnumChar(v[k]) || v[k] == '-' || v[k] == '_')
                       && exists k :: 0 <= k < |v| && IsAlnumChar(v[k])
    ensures r.Ok? ==> r.value == v
  {
    if !(1 <= |v| <= 100) then Err(ValueError)
    else if forall k :: 0 <= k < |v| ==> IsAlnumChar(v[k]) || v[k] == '-' || v[k] == '_' then
      DeletedAlnum(v, '-', '_');
      ValidateAppNameChars(v)
    else
      AppNameStray(v);
      ValidateAppNameChars(v)
  }

  /** A character other than a letter, digit, `-` or `_` survives the
      deletions and makes the rest non-alphanumeric. */
  lemma AppNameStray(v: string)
    requires exists k :: 0 <= k < |v| && !(IsAlnumChar(v[k]) || v[k] == '-' || v[k] == '_')
    ensures !IsAlnum(ReplaceAll(ReplaceAll(v, "-", ""), "_", ""))
  {
    var k :| 0 <= k < |v| && !(IsAlnumChar(v[k]) || v[k] == '-' || v[k] == '_');
    ReplaceDelete(v, '-');
    ReplaceDelete(DeleteChar(v, '-'), '_');
    var rest := DeleteChar(DeleteChar(v, '-'), '_');
    assert v[k] in rest;
  }

  datatype ConfigModel = ConfigModel(appName: string, debug: bool, maxConnections: int, timeout: string,
                                     allowedHosts: seq<string>, metadata: PyDict.Dict<string, Values.Value>)

  /** Constructing a `ConfigModel`; whether the float `timeout` lies in
      `(0, 300]` is the parameter `timeoutOk`. */
  function NewConfigModel(appName: string, debug: bool, maxConnections: int, timeout: string, timeoutOk: bool,
                          allowedHosts: seq<string>, metadata: PyDict.Dict<string, Values.Value>): (r: Result<ConfigModel>)
    ensures r.Ok? <==> ValidateAppName(appName).Ok? && 1 <= maxConnections <= 100 && timeoutOk
    ensures r.Ok? ==> r.value == ConfigModel(appName, debug, maxConnections, timeout, allowedHosts, metadata)
  {
    var name :- ValidateAppName(appName);
    if 1 <= maxConnections <= 100 && timeoutOk then Ok(ConfigModel(name, debug, maxConnections, timeout, allowedHosts, metadata))
    else Err(ValueError)
  }
}
