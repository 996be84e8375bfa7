/**
 * The pure and record-building parts of the admin integration page: the tab chosen from the
 * `tab` query parameter, the admin headers built from what the browser has stored, the
 * guard that refuses to call the backend without them, and the normaliser that turns the
 * loosely shaped page rows of the backend into `ConnectedPage` records.
 *
 * React state, `fetch`, the OAuth redirect and `localStorage` itself are left out: what
 * `localStorage.getItem` and `searchParams.get` return, and whether `window` exists, are
 * parameters.
 */
module AdminApi {
  import opened Wrappers
  import opened JsText

  // ---------------------------------------------------------------------------
  // The initial tab

  datatype Tab = Facebook | Instagram | Whatsapp

  function TabName(t: Tab): string {
    match t
    case Facebook => "facebook"
    case Instagram => "instagram"
    case Whatsapp => "whatsapp"
  }

  /** `String(searchParams.get("tab") || "").toLowerCase()`, for what `get` returned. */
  function TabParam(param: Option<string>): string {
    ToLower(if param.Some? then param.value else "")
  }

  /** The tab the lower-cased parameter names, if it names one. */
  function ParseTab(param: Option<string>): (r: Option<Tab>)
    ensures r.Some? ==> TabName(r.value) == TabParam(param)
    ensures r.None? ==> forall t: Tab :: TabName(t) != TabParam(param)
  {
    var lowered := TabParam(param);
    if lowered == "facebook" then Some(Facebook)
    else if lowered == "instagram" then Some(Instagram)
    else if lowered == "whatsapp" then Some(Whatsapp)
    else None
  }

  /**
   * The tab the page opens on: the one the parameter names, in any case, and Facebook
   * otherwise (also when the parameter is missing).
   */
  function InitialTab(param: Option<string>): (t: Tab)
    ensures TabName(t) == TabParam(param) || (t == Facebook && forall u: Tab :: TabName(u) != TabParam(param))
  {
    match ParseTab(param)
    case Some(t) => t
    case None => Facebook
  }

  /**
   * The effect that follows changes of the query string: a parameter that names a tab
   * selects it, and anything else leaves the current tab as it is.
   */
  function SyncTab(current: Tab, param: Option<string>): (t: Tab)
    ensures TabName(t) == TabParam(param) || (t == current && forall u: Tab :: TabName(u) != TabParam(param))
  {
    match ParseTab(param)
    case Some(t) => t
    case None => current
  }

  /** Syncing from the default tab gives the tab the page opens on. */
  lemma SyncTabFromDefault(param: Option<string>)
    ensures SyncTab(Facebook, param) == InitialTab(param)
  {
  }

  /** Once the tab follows the parameter, syncing again with the same parameter changes nothing. */
  lemma SyncTabIdempotent(current: Tab, param: Option<string>)
    ensures SyncTab(SyncTab(current, param), param) == SyncTab(current, param)
  {
  }

  /** Each tab's own name selects it. */
  lemma InitialTabOfName(t: Tab)
    ensures InitialTab(Some(TabName(t))) == t
  {
    var name := TabName(t);
    assert ToLower(name) == name;
  }

  /** The parameter's case does not matter: `?tab=INSTAGRAM` selects Instagram. */
  lemma InitialTabIgnoresCase(t: Tab)
    ensures InitialTab(Some(UpperAscii(TabName(t)))) == t
  {
    LowerOfUpper(TabName(t));
  }

  /** A missing parameter selects Facebook. */
  lemma InitialTabMissing()
    ensures InitialTab(None) == Facebook
  {
    assert ToLower("") == "";
  }

  /** An unknown parameter selects Facebook. */
  lemma InitialTabDefault(s: string)
    requires forall t: Tab :: ToLower(s) != TabName(t)
    ensures InitialTab(Some(s)) == Facebook
  {
    assert ToLower(s) != TabName(Instagram) && ToLower(s) != TabName(Whatsapp);
  }

  // ---------------------------------------------------------------------------
  // Admin headers

  const AuthorizationHeader := "Authorization"
  const AdminKeyHeader := "x-admin-key"

  /** The message of the error `ensureAdmin` throws. */
  const MissingCredentialsMessage := "Admin login করুন অথবা Admin API Key দিন (backend .env এর ADMIN_API_KEY)"

  /** `localStorage.getItem(name) || ""`, for what `getItem` returned. */
  function Stored(item: Option<string>): string {
    if item.Some? then item.value else ""
  }

  /**
   * The headers the page sends to the backend: a bearer token when one is stored, the admin
   * key when one is stored, both when both are, nothing else, and nothing at all outside a
   * browser.
   */
  predicate AdminHeadersFor(h: map<string, string>, hasWindow: bool, token: Option<string>, key: Option<string>) {
    && (AuthorizationHeader in h <==> hasWindow && Stored(token) != "")
    && (AuthorizationHeader in h ==> h[AuthorizationHeader] == "Bearer " + Stored(token))
    && (AdminKeyHeader in h <==> hasWindow && Stored(key) != "")
    && (AdminKeyHeader in h ==> h[AdminKeyHeader] == Stored(key))
    && (forall name :: name in h ==> name == AuthorizationHeader || name == AdminKeyHeader)
  }

  /** AdminHeadersFor fixes the headers completely. */
  lemma AdminHeadersUnique(h1: map<string, string>, h2: map<string, string>,
                           hasWindow: bool, token: Option<string>, key: Option<string>)
    requires AdminHeadersFor(h1, hasWindow, token, key) && AdminHeadersFor(h2, hasWindow, token, key)
    ensures h1 == h2
  {
    assert h1.Keys == h2.Keys;
  }

  /**
   * `buildAdminHeaders()`: `hasWindow` is `typeof window !== "undefined"`, `token` and `key`
   * are what `localStorage` holds under `admin_token_v1` and `social_ai_admin_key_v1`.
   */
  method BuildAdminHeaders(hasWindow: bool, token: Option<string>, key: Option<string>)
    returns (h: map<string, string>)
    ensures AdminHeadersFor(h, hasWindow, token, key)
  {
    if !hasWindow {
      return map[];
    }
    var t := Stored(token);
    var k := Stored(key);
    h := map[];
    if t != "" {
      h := h[AuthorizationHeader := "Bearer " + t];
    }
    if k != "" {
      h := h[AdminKeyHeader := k];
    }
  }

  /** `!!h[name]`: the header is there and not empty. */
  predicate HeaderSet(h: map<string, string>, name: string) {
    name in h && h[name] != ""
  }

  /**
   * `ensureAdmin()`: fails exactly when neither credential is stored (or there is no
   * browser), and otherwise hands back the headers as built.
   */
  method EnsureAdmin(hasWindow: bool, token: Option<string>, key: Option<string>)
    returns (r: Result<map<string, string>, string>)
    ensures r.Failure? <==> !hasWindow || (Stored(token) == "" && Stored(key) == "")
    ensures r.Failure? ==> r.error == MissingCredentialsMessage
    ensures r.Success? ==> AdminHeadersFor(r.value, hasWindow, token, key) && r.value != map[]
  {
    var h := BuildAdminHeaders(hasWindow, token, key);
    if !HeaderSet(h, AuthorizationHeader) && !HeaderSet(h, AdminKeyHeader) {
      return Failure(MissingCredentialsMessage);
    }
    return Success(h);
  }

  // ---------------------------------------------------------------------------
  // Loose JavaScript values

  /** A JavaScript number: finite, `NaN`, or an infinity. */
  datatype JsNumber = Finite(value: real) | NaN | Infinite(positive: bool)

  /**
   * An untyped JavaScript value as the normaliser sees it. Numbers carry their `String(...)`
   * form, strings and objects their `Number(...)` value, and objects their `String(...)`
   * form: number formatting and string-to-number parsing are not modelled.
   */
  datatype JsValue =
    | Undefined
    | Null
    | Bool(b: bool)
    | Num(n: JsNumber, text: string)
    | Str(s: string, number: JsNumber)
    | Obj(text: string, number: JsNumber)

  /** JavaScript truthiness: what `||` and `!!` test. */
  predicate Truthy(v: JsValue) {
    match v
    case Undefined => false
    case Null => false
    case Bool(b) => b
    case Num(n, _) => (n.Finite? && n.value != 0.0) || n.Infinite?
    case Str(s, _) => s != ""
    case Obj(_, _) => true
  }

  /** What `??` tests. */
  predicate Nullish(v: JsValue) {
    v.Undefined? || v.Null?
  }

  /** `String(v)`. */
  function ToStr(v: JsValue): string {
    match v
    case Undefined => "undefined"
    case Null => "null"
    case Bool(b) => if b then "true" else "false"
    case Num(_, text) => text
    case Str(s, _) => s
    case Obj(text, _) => text
  }

  /** `Number(v)`. */
  function ToNumber(v: JsValue): JsNumber {
    match v
    case Undefined => NaN
    case Null => Finite(0.0)
    case Bool(b) => Finite(if b then 1.0 else 0.0)
    case Num(n, _) => n
    case Str(_, n) => n
    case Obj(_, n) => n
  }

  /** An array element: the properties `r?.name` can read. A missing property, or an element that is not an object, reads as `undefined`. */
  type Row = map<string, JsValue>

  function Get(r: Row, name: string): JsValue {
    if name in r then r[name] else Undefined
  }

  /** What `normalizeConnectedPages` is given. */
  datatype Loose = NotArray | Array(rows: seq<Row>)

  /**
   * `r?.names[0] || r?.names[1] || ... || fallback`: the first of the named properties that is
   * truthy, or the fallback when none is.
   */
  function FirstTruthy(r: Row, names: seq<string>, fallback: JsValue): (v: JsValue)
    ensures (exists i :: 0 <= i < |names| && v == Get(r, names[i]) && Truthy(v) &&
               forall j :: 0 <= j < i ==> !Truthy(Get(r, names[j])))
         || (v == fallback && forall j :: 0 <= j < |names| ==> !Truthy(Get(r, names[j])))
  {
    if names == [] then fallback
    else
      var rest := FirstTruthy(r, names[1..], fallback);
      assert forall j :: 0 <= j < |names| - 1 ==> names[1..][j] == names[j + 1];
      if Truthy(Get(r, names[0])) then Get(r, names[0]) else rest
  }

  /**
   * `r?.names[0] ?? r?.names[1] ?? ... ?? fallback`: the first of the named properties that is
   * neither `null` nor `undefined`, or the fallback.
   */
  function FirstNonNullish(r: Row, names: seq<string>, fallback: JsValue): (v: JsValue)
    ensures (exists i :: 0 <= i < |names| && v == Get(r, names[i]) && !Nullish(v) &&
               forall j :: 0 <= j < i ==> Nullish(Get(r, names[j])))
         || (v == fallback && forall j :: 0 <= j < |names| ==> Nullish(Get(r, names[j])))
  {
    if names == [] then fallback
    else
      var rest := FirstNonNullish(r, names[1..], fallback);
      assert forall j :: 0 <= j < |names| - 1 ==> names[1..][j] == names[j + 1];
      if !Nullish(Get(r, names[0])) then Get(r, names[0]) else rest
  }

  datatype ConnectedPage = ConnectedPage(id: real, pageId: string, pageName: string, updatedAt: Option<string>)

  const IdNames: seq<string> := ["id"]
  const PageIdNames: seq<string> := ["pageId", "page_id", "pageID"]
  const PageNameNames: seq<string> := ["pageName", "page_name", "name"]
  const UpdatedAtNames: seq<string> := ["updatedAt", "updated_at"]

  /** The `""` and `0` literals the fallbacks end in. */
  const EmptyString := Str("", Finite(0.0))
  const Zero := Num(Finite(0.0), "0")

  /** `String(r?.names[0] || ... || "").trim()`. */
  function TrimmedFirst(r: Row, names: seq<string>): string {
    Trim(ToStr(FirstTruthy(r, names, EmptyString)))
  }

  /** The callback of `arr.map(...)`: page id and page name come out trimmed. */
  function NormalizeRow(r: Row): (p: ConnectedPage)
    ensures IsTrimmed(p.pageId) && IsTrimmed(p.pageName)
  {
    var idNum := ToNumber(FirstTruthy(r, IdNames, Zero));
    var pageId := TrimmedFirst(r, PageIdNames);
    var pageName := TrimmedFirst(r, PageNameNames);
    var updatedAt := FirstNonNullish(r, UpdatedAtNames, Null);
    ConnectedPage(
      if idNum.Finite? then idNum.value else 0.0,
      pageId,
      pageName,
      if Truthy(updatedAt) then Some(ToStr(updatedAt)) else None)
  }

  /** `.filter((p) => !!p.pageId)`. */
  predicate Kept(p: ConnectedPage) {
    p.pageId != ""
  }

  /** `arr.map(...)`. */
  function MapRows(rows: seq<Row>): (ps: seq<ConnectedPage>)
    ensures |ps| == |rows|
    decreases |rows|
  {
    if rows == [] then [] else MapRows(rows[..|rows| - 1]) + [NormalizeRow(rows[|rows| - 1])]
  }

  /** The `i`-th mapped page is the normalised `i`-th row. */
  lemma {:induction false} MapRowsAt(rows: seq<Row>, i: int)
    requires 0 <= i < |rows|
    ensures MapRows(rows)[i] == NormalizeRow(rows[i])
    decreases |rows|
  {
    if i < |rows| - 1 {
      MapRowsAt(rows[..|rows| - 1], i);
    }
  }

  /** `.filter(...)`: the kept pages, each one a page of the input. */
  function KeepPages(ps: seq<ConnectedPage>): (out: seq<ConnectedPage>)
    ensures |out| <= |ps|
    ensures forall j :: 0 <= j < |out| ==> Kept(out[j]) && out[j] in ps
    decreases |ps|
  {
    if ps == [] then []
    else
      var p := ps[|ps| - 1];
      var init := KeepPages(ps[..|ps| - 1]);
      var out := init + (if Kept(p) then [p] else []);
      assert forall j :: 0 <= j < |init| ==> out[j] == init[j] && init[j] in ps[..|ps| - 1];
      out
  }

  /**
   * `normalizeConnectedPages(input)`: anything but an array gives no pages, rows only drop
   * out, and every page id that survives is non-empty and trimmed.
   */
  function NormalizeConnectedPages(input: Loose): (out: seq<ConnectedPage>)
    ensures input.NotArray? ==> out == []
    ensures input.Array? ==> |out| <= |input.rows|
    ensures forall j :: 0 <= j < |out| ==> out[j].pageId != "" && IsTrimmed(out[j].pageId)
  {
    match input
    case NotArray => []
    case Array(rows) =>
      var pages := MapRows(rows);
      MapRowsTrimmed(rows);
      KeepPages(pages)
  }

  /** Every mapped page has a trimmed page id. */
  lemma MapRowsTrimmed(rows: seq<Row>)
    ensures forall i :: 0 <= i < |MapRows(rows)| ==> IsTrimmed(MapRows(rows)[i].pageId)
  {
    forall i | 0 <= i < |rows| ensures IsTrimmed(MapRows(rows)[i].pageId) {
      MapRowsAt(rows, i);
    }
  }

  /** The positions of the pages the filter keeps. */
  function KeptIndices(ps: seq<ConnectedPage>): seq<int>
    decreases |ps|
  {
    if ps == [] then []
    else KeptIndices(ps[..|ps| - 1]) + (if Kept(ps[|ps| - 1]) then [|ps| - 1] else [])
  }

  /**
   * The filter keeps the pages in order and drops exactly those with an empty page id: the
   * `j`-th result is the `j`-th kept page, a page is kept exactly when its id is not empty,
   * and the kept positions increase.
   */
  lemma KeepPagesKeepsOrder(ps: seq<ConnectedPage>)
    ensures var ix := KeptIndices(ps);
      var out := KeepPages(ps);
      && |ix| == |out|
      && (forall j :: 0 <= j < |ix| ==> 0 <= ix[j] < |ps| && out[j] == ps[ix[j]])
      && (forall j, k :: 0 <= j < k < |ix| ==> ix[j] < ix[k])
      && (forall i :: 0 <= i < |ps| ==> (i in ix <==> Kept(ps[i])))
  {
    KeptIndicesSpec(ps);
    KeepPagesAt(ps);
  }

  /** The kept positions are the positions of the pages with a page id, in increasing order. */
  lemma {:induction false} KeptIndicesSpec(ps: seq<ConnectedPage>)
    ensures var ix := KeptIndices(ps);
      && (forall j :: 0 <= j < |ix| ==> 0 <= ix[j] < |ps|)
      && (forall j, k :: 0 <= j < k < |ix| ==> ix[j] < ix[k])
      && (forall i :: 0 <= i < |ps| ==> (i in ix <==> Kept(ps[i])))
    decreases |ps|
  {
    if ps != [] {
      var n := |ps| - 1;
      var init := ps[..n];
      KeptIndicesSpec(init);
      var ix0 := KeptIndices(init);
      var ix := KeptIndices(ps);
      assert ix == ix0 + (if Kept(ps[n]) then [n] else []);
      forall i | 0 <= i < |ps| ensures i in ix <==> Kept(ps[i]) {
        if i < n {
          assert init[i] == ps[i];
          assert i in ix <==> i in ix0;
        } else {
          assert n !in ix0;
        }
      }
    }
  }

  /** The `j`-th page the filter keeps is the page at the `j`-th kept position. */
  lemma {:induction false} KeepPagesAt(ps: seq<ConnectedPage>)
    ensures var ix := KeptIndices(ps);
      var out := KeepPages(ps);
      && |ix| == |out|
      && (forall j :: 0 <= j < |ix| ==> 0 <= ix[j] < |ps| && out[j] == ps[ix[j]])
    decreases |ps|
  {
    if ps != [] {
      var n := |ps| - 1;
      var init := ps[..n];
      var last := ps[n];
      KeepPagesAt(init);
      var ix0 := KeptIndices(init);
      var out0 := KeepPages(init);
      var ix := KeptIndices(ps);
      var out := KeepPages(ps);
      assert ix == ix0 + (if Kept(last) then [n] else []);
      assert out == out0 + (if Kept(last) then [last] else []);
      forall j | 0 <= j < |ix| ensures 0 <= ix[j] < |ps| && out[j] == ps[ix[j]] {
        if j < |ix0| {
          assert ix[j] == ix0[j] && out[j] == out0[j];
          assert init[ix0[j]] == ps[ix0[j]];
        }
      }
    }
  }

  /**
   * The normaliser keeps the rows in order and drops exactly those whose trimmed page id is
   * empty: the `j`-th page comes from the `j`-th kept row.
   */
  lemma NormalizeKeepsOrder(rows: seq<Row>)
    ensures var ix := KeptIndices(MapRows(rows));
      var out := NormalizeConnectedPages(Array(rows));
      && |ix| == |out|
      && (forall j :: 0 <= j < |ix| ==> 0 <= ix[j] < |rows| && out[j] == NormalizeRow(rows[ix[j]]))
      && (forall j, k :: 0 <= j < k < |ix| ==> ix[j] < ix[k])
      && (forall i :: 0 <= i < |rows| ==> (i in ix <==> NormalizeRow(rows[i]).pageId != ""))
  {
    var ps := MapRows(rows);
    KeepPagesKeepsOrder(ps);
    var ix := KeptIndices(ps);
    var out := KeepPages(ps);
    assert NormalizeConnectedPages(Array(rows)) == out;
    forall j | 0 <= j < |ix| ensures out[j] == NormalizeRow(rows[ix[j]]) {
      MapRowsAt(rows, ix[j]);
    }
    forall i | 0 <= i < |rows| ensures i in ix <==> NormalizeRow(rows[i]).pageId != "" {
      MapRowsAt(rows, i);
    }
  }

  /** A row is dropped exactly when the chosen page id is empty or all whitespace. */
  lemma DroppedRow(r: Row)
    ensures !Kept(NormalizeRow(r)) <==> AllSpace(ToStr(FirstTruthy(r, PageIdNames, EmptyString)))
  {
  }

  /**
   * The page id is chosen before it is trimmed: a `pageId` of whitespace wins over any
   * `page_id` or `pageID`, and the row is dropped.
   */
  lemma BlankPageIdHidesFallback(r: Row, s: string, n: JsNumber)
    requires Get(r, "pageId") == Str(s, n) && s != "" && AllSpace(s)
    ensures NormalizeConnectedPages(Array([r])) == []
  {
    var p := NormalizeRow(r);
    assert FirstTruthy(r, PageIdNames, EmptyString) == Str(s, n) by {
      assert PageIdNames[0] == "pageId";
    }
    assert p.pageId == "";
    MapOneRow(r);
    DropOnePage(p);
  }

  lemma MapOneRow(r: Row)
    ensures MapRows([r]) == [NormalizeRow(r)]
  {
    assert [r][..0] == [];
  }

  lemma DropOnePage(p: ConnectedPage)
    requires !Kept(p)
    ensures KeepPages([p]) == []
  {
    assert [p][..0] == [];
  }

  /**
   * `??` only skips `null` and `undefined`: an empty `updatedAt` is taken over a present
   * `updated_at`, and then gives `null` because it is falsy.
   */
  lemma EmptyUpdatedAtHidesFallback(n: JsNumber, m: JsNumber)
    ensures var r := map["updatedAt" := Str("", n), "updated_at" := Str("2024-01-01", m)];
      NormalizeRow(r).updatedAt == None
  {
    var r := map["updatedAt" := Str("", n), "updated_at" := Str("2024-01-01", m)];
    assert FirstNonNullish(r, UpdatedAtNames, Null) == Str("", n);
  }

  /**
   * The page id is the trimmed string of the first truthy one of `pageId`, `page_id` and
   * `pageID`, and empty when none of them is truthy.
   */
  lemma NormalizedPageId(r: Row)
    ensures var x, y, z := Get(r, "pageId"), Get(r, "page_id"), Get(r, "pageID");
      NormalizeRow(r).pageId == Trim(ToStr(if Truthy(x) then x else if Truthy(y) then y else if Truthy(z) then z else EmptyString))
    ensures !Truthy(Get(r, "pageId")) && !Truthy(Get(r, "page_id")) && !Truthy(Get(r, "pageID")) ==> NormalizeRow(r).pageId == ""
  {
    assert PageIdNames[0] == "pageId" && PageIdNames[1] == "page_id" && PageIdNames[2] == "pageID";
    TrimmedFirstOfThree(r, PageIdNames);
  }

  /**
   * The page name is the trimmed string of the first truthy one of `pageName`, `page_name` and
   * `name`, and empty when none of them is truthy.
   */
  lemma NormalizedPageName(r: Row)
    ensures var x, y, z := Get(r, "pageName"), Get(r, "page_name"), Get(r, "name");
      NormalizeRow(r).pageName == Trim(ToStr(if Truthy(x) then x else if Truthy(y) then y else if Truthy(z) then z else EmptyString))
    ensures !Truthy(Get(r, "pageName")) && !Truthy(Get(r, "page_name")) && !Truthy(Get(r, "name")) ==> NormalizeRow(r).pageName == ""
  {
    assert PageNameNames[0] == "pageName" && PageNameNames[1] == "page_name" && PageNameNames[2] == "name";
    TrimmedFirstOfThree(r, PageNameNames);
  }

  /** The first truthy of three properties, trimmed, or `""` when none is truthy. */
  lemma TrimmedFirstOfThree(r: Row, names: seq<string>)
    requires |names| == 3
    ensures var x, y, z := Get(r, names[0]), Get(r, names[1]), Get(r, names[2]);
      TrimmedFirst(r, names) == Trim(ToStr(if Truthy(x) then x else if Truthy(y) then y else if Truthy(z) then z else EmptyString))
    ensures !Truthy(Get(r, names[0])) && !Truthy(Get(r, names[1])) && !Truthy(Get(r, names[2])) ==> TrimmedFirst(r, names) == ""
  {
    FirstOfThree(r, names, EmptyString);
    assert AllSpace("");
  }

  /** `r?.a || r?.b || r?.c || fallback`, spelt out. */
  lemma FirstOfThree(r: Row, names: seq<string>, fallback: JsValue)
    requires |names| == 3
    ensures var v := FirstTruthy(r, names, fallback);
      var x, y, z := Get(r, names[0]), Get(r, names[1]), Get(r, names[2]);
      v == if Truthy(x) then x else if Truthy(y) then y else if Truthy(z) then z else fallback
  {
    assert names[1..][1..][1..] == [];
  }

  /** The id is `Number(r.id || 0)` when that is finite, and 0 otherwise. */
  lemma NormalizedId(r: Row)
    ensures var n := ToNumber(FirstTruthy(r, IdNames, Zero));
      NormalizeRow(r).id == if n.Finite? then n.value else 0.0
    ensures !Truthy(Get(r, "id")) ==> NormalizeRow(r).id == 0.0
    ensures Truthy(Get(r, "id")) && !ToNumber(Get(r, "id")).Finite? ==> NormalizeRow(r).id == 0.0
  {
    assert IdNames[0] == "id";
  }

  /** `updatedAt` is `null` exactly when the first non-nullish of `updatedAt`, `updated_at` is falsy, and its string form otherwise. */
  lemma NormalizedUpdatedAt(r: Row)
    ensures var u := FirstNonNullish(r, UpdatedAtNames, Null);
      (NormalizeRow(r).updatedAt == None <==> !Truthy(u))
      && (Truthy(u) ==> NormalizeRow(r).updatedAt == Some(ToStr(u)))
  {
  }
}
