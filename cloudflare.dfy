/** The Cloudflare rules-list client (CloudflareRulesListClient.php).

    Decoded JSON is kept as PHP sees it after `json_decode(..., true)`: arrays
    of key/value pairs. The HTTP transport (HttpClient.php) is a scripted
    oracle: each request it performs consumes the next reply of its script,
    which is either a response (status and decoded body) or a failure to
    reach the server; a script that has run out stands for an unreachable
    server.

    Every operation of the client is described twice: as a pure step
    function on a `ClientState` value (the client's two fields plus the
    transport's script and log), about which the lemmas speak, and as a
    method of the `Client` class, which updates the fields in place and is
    proved to perform exactly that step. */
module CloudflareRulesList {
  import opened Wrappers
  import opened PhpText

  // ------------------------------------------------------------ decoded JSON

  /** A PHP array key: list positions are integer keys, and object keys are
      string keys. `json_decode` would store a decimal object key such as
      "5" as an integer key; that normalisation is not modelled. */
  datatype Key = IntKey(i: int) | StrKey(s: string)

  /** A decoded JSON value. Floats are not modelled. Object keys are taken
      to be distinct, as `json_decode` makes them. */
  datatype Json =
    | JNull
    | JBool(b: bool)
    | JInt(n: int)
    | JStr(s: string)
    | JArray(entries: PhpArray)

  type PhpArray = seq<(Key, Json)>

  /** The value stored under k, JNull when there is none. */
  function Lookup(a: PhpArray, k: Key): Json {
    if a == [] then JNull else if a[0].0 == k then a[0].1 else Lookup(a[1..], k)
  }

  /** `$j[k]` in a context that tolerates a missing offset (`??`, `isset`):
      a non-array has no entries. */
  function Get(j: Json, k: Key): Json {
    if j.JArray? then Lookup(j.entries, k) else JNull
  }

  function Field(j: Json, name: string): Json {
    Get(j, StrKey(name))
  }

  /** PHP's null-coalescing operator `v ?? d`. */
  function Or(v: Json, d: Json): Json {
    if v == JNull then d else v
  }

  /** PHP's `empty()`. */
  predicate Empty(j: Json) {
    match j
    case JNull => true
    case JBool(b) => !b
    case JInt(n) => n == 0
    case JStr(s) => s == "" || s == "0"
    case JArray(e) => e == []
  }

  /** PHP's `empty()` on a nullable string. */
  predicate EmptyText(s: Option<string>) {
    s.None? || s.value == "" || s.value == "0"
  }

  /** The values of an array in iteration order. */
  function Values(a: PhpArray): (r: seq<Json>)
    ensures |r| == |a|
  {
    if a == [] then [] else [a[0].1] + Values(a[1..])
  }

  /** A PHP list: every key an integer. */
  predicate IsList(a: PhpArray) {
    a == [] || (a[0].0.IntKey? && IsList(a[1..]))
  }

  /** String interpolation of a value (`.` concatenation). */
  function ToPhpString(j: Json): string {
    match j
    case JNull => ""
    case JBool(b) => if b then "1" else ""
    case JInt(n) => IntToString(n)
    case JStr(s) => s
    case JArray(_) => "Array"
  }

  /** Assignment to the `?string $listId` property without strict types:
      scalars are converted, an array is a TypeError. */
  function ToStringProperty(j: Json): Result<string> {
    match j
    case JBool(b) => Ok(if b then "1" else "")
    case JInt(n) => Ok(IntToString(n))
    case JStr(s) => Ok(s)
    case _ => Threw(TypeError("Cannot assign value to property CloudflareRulesListClient::$listId of type ?string"))
  }

  // -------------------------------------------------------------- array_merge

  function IntKeyCount(a: PhpArray): nat {
    if a == [] then 0 else (if a[0].0.IntKey? then 1 else 0) + IntKeyCount(a[1..])
  }

  /** Stores v under k: in place when k is present, at the end otherwise. */
  function SetEntry(a: PhpArray, k: Key, v: Json): PhpArray {
    if a == [] then [(k, v)]
    else if a[0].0 == k then [(k, v)] + a[1..]
    else [a[0]] + SetEntry(a[1..], k, v)
  }

  /** One step of `array_merge($all, $items)`: an integer-keyed value is
      appended under the next integer key, a string-keyed one overwrites.
      The accumulated array only ever holds what `array_merge` built, whose
      integer keys are 0, 1, ..., so the next integer key is their count. */
  function MergeEntry(a: PhpArray, e: (Key, Json)): PhpArray {
    if e.0.IntKey? then a + [(IntKey(IntKeyCount(a)), e.1)] else SetEntry(a, e.0, e.1)
  }

  function ArrayMerge(a: PhpArray, b: PhpArray): PhpArray
    decreases |b|
  {
    if b == [] then a else ArrayMerge(MergeEntry(a, b[0]), b[1..])
  }

  lemma {:induction false} ValuesAppend(a: PhpArray, e: (Key, Json))
    ensures Values(a + [e]) == Values(a) + [e.1]
  {
    if a != [] {
      assert (a + [e])[1..] == a[1..] + [e];
      ValuesAppend(a[1..], e);
    }
  }

  lemma MergeListHead(a: PhpArray, b: PhpArray)
    requires IsList(b) && b != []
    ensures Values(MergeEntry(a, b[0])) == Values(a) + [b[0].1]
    ensures IsList(b[1..])
  {
    ValuesAppend(a, (IntKey(IntKeyCount(a)), b[0].1));
  }

  /** Merging a list appends its values in order. */
  lemma {:induction false} MergeListValues(a: PhpArray, b: PhpArray)
    requires IsList(b)
    ensures Values(ArrayMerge(a, b)) == Values(a) + Values(b)
    decreases |b|
  {
    if b != [] {
      var a' := MergeEntry(a, b[0]);
      MergeListHead(a, b);
      MergeListValues(a', b[1..]);
      assert ArrayMerge(a, b) == ArrayMerge(a', b[1..]);
      assert Values(b) == [b[0].1] + Values(b[1..]);
    }
  }

  // ----------------------------------------------------------------- requests

  datatype Verb = GET | POST | PUT | DELETE

  function VerbName(v: Verb): string {
    match v
    case GET => "GET"
    case POST => "POST"
    case PUT => "PUT"
    case DELETE => "DELETE"
  }

  /** A request: method, path below the API base, query and JSON body
      (JNull when there is none). */
  datatype Call = Call(verb: Verb, path: string, query: PhpArray, body: Json)

  /** What the server does with one request: answers with a status and a
      decoded body (`json_decode` yields JNull for text that is not JSON), or
      cannot be reached (the cURL error text). */
  datatype Reply = Response(status: int, body: Json) | Unreachable(error: string)

  /** What `HttpClient::get`/`post`/`put` return or throw for the next reply
      of the script: a status of 400 or more throws (HttpClient.php). */
  function Transported(verb: Verb, replies: seq<Reply>): Result<Json> {
    if replies == [] then Threw(RuntimeException("HTTP " + VerbName(verb) + " request failed: "))
    else match replies[0]
      case Unreachable(e) => Threw(RuntimeException("HTTP " + VerbName(verb) + " request failed: " + e))
      case Response(status, body) =>
        if status >= 400 then Threw(RuntimeException("HTTP request failed with status: " + IntToString(status)))
        else Ok(body)
  }

  function Drop1(replies: seq<Reply>): seq<Reply> {
    if replies == [] then [] else replies[1..]
  }

  /** `request` sends DELETE through `HttpClient::send`, a method HttpClient
      does not have: the call is an Error before anything is sent. */
  const UndefinedSend := Error("Call to undefined method HttpClient::send()")

  /** `decodeResponse`: the body must be an array whose `success` is `true`. */
  function DecodeResponse(data: Json): (r: Result<Json>)
    ensures r.Ok? <==> data.JArray? && Field(data, "success") == JBool(true)
    ensures r.Ok? ==> r.value == data
    ensures r.Threw? ==> r.error.RuntimeException?
  {
    if !data.JArray? then Threw(RuntimeException("Cloudflare API returned invalid JSON"))
    else if Field(data, "success") != JBool(true) then
      Threw(RuntimeException("Cloudflare API request failed" + ErrorDetail(Or(Field(data, "errors"), JArray([])))))
    else Ok(data)
  }

  /** The `: message` suffix taken from the first error, when it has one. */
  function ErrorDetail(errors: Json): string {
    if errors.JArray? && !Empty(errors) then
      var first := Get(errors, IntKey(0));
      if first.JArray? && Field(first, "message") != JNull then ": " + ToPhpString(Field(first, "message")) else ""
    else ""
  }

  /** The error message names the first error's message exactly when the
      response lists one. */
  lemma DecodeFailureMessage(data: Json, m: string)
    requires data.JArray? && Field(data, "success") != JBool(true)
    ensures var first := Get(Field(data, "errors"), IntKey(0));
      && (Field(data, "errors").JArray? && first.JArray? && Field(first, "message") == JStr(m) ==>
           DecodeResponse(data) == Threw(RuntimeException("Cloudflare API request failed: " + m)))
      && (Empty(Field(data, "errors")) ==>
           DecodeResponse(data) == Threw(RuntimeException("Cloudflare API request failed")))
  {
  }

  // ------------------------------------------------------------- client state

  /** The client's immutable settings. */
  datatype Config = Config(accountId: string, listName: Option<string>)

  /** The client's two fields, the transport's remaining script and the log
      of requests it performed. */
  datatype ClientState = ClientState(
    listId: Option<string>,
    itemsCache: Option<PhpArray>,
    replies: seq<Reply>,
    sent: seq<Call>)

  datatype Answer<+T> = Answer(result: Result<T>, state: ClientState)

  datatype Effect = Effect(status: Status, state: ClientState)

  function ListsPath(accountId: string): string {
    "accounts/" + accountId + "/rules/lists"
  }

  function ItemsPath(accountId: string, listId: string): string {
    ListsPath(accountId) + "/" + listId + "/items"
  }

  /** `request`: perform the call and decode the answer. */
  function RequestStep(st: ClientState, c: Call): Answer<Json> {
    if c.verb == DELETE then Answer(Threw(UndefinedSend), st)
    else
      var t := Transported(c.verb, st.replies);
      var st' := st.(replies := Drop1(st.replies), sent := st.sent + [c]);
      Answer(if t.Threw? then Threw(t.error) else DecodeResponse(t.value), st')
  }

  /** `getLists`: the `result` of the lists endpoint, which the declared
      return type requires to be an array. */
  function GetListsStep(cfg: Config, st: ClientState): Answer<PhpArray> {
    var a := RequestStep(st, Call(GET, ListsPath(cfg.accountId), [], JNull));
    if a.result.Threw? then Answer(Threw(a.result.error), a.state)
    else
      var res := Or(Field(a.result.value, "result"), JArray([]));
      if res.JArray? then Answer(Ok(res.entries), a.state)
      else Answer(Threw(TypeError("CloudflareRulesListClient::getLists(): Return value must be of type array")), a.state)
  }

  /** A list entry carrying the wanted name and an id. */
  predicate NamedWithId(list: Json, name: string) {
    Field(list, "name") == JStr(name) && Field(list, "id") != JNull
  }

  /** The id of the first list with the given name, if any. */
  function FirstNamedId(lists: PhpArray, name: string): Option<Json> {
    if lists == [] then None
    else if NamedWithId(lists[0].1, name) then Some(Field(lists[0].1, "id"))
    else FirstNamedId(lists[1..], name)
  }

  lemma {:induction false} FirstNamedIdMeaning(lists: PhpArray, name: string)
    ensures FirstNamedId(lists, name).None? <==>
      forall i :: 0 <= i < |lists| ==> !NamedWithId(lists[i].1, name)
    ensures FirstNamedId(lists, name).Some? ==>
      exists i :: 0 <= i < |lists| && NamedWithId(lists[i].1, name)
        && FirstNamedId(lists, name).value == Field(lists[i].1, "id")
        && forall j :: 0 <= j < i ==> !NamedWithId(lists[j].1, name)
  {
    if lists != [] && !NamedWithId(lists[0].1, name) {
      FirstNamedIdMeaning(lists[1..], name);
      if FirstNamedId(lists, name).Some? {
        var i :| 0 <= i < |lists[1..]| && NamedWithId(lists[1..][i].1, name)
          && FirstNamedId(lists, name).value == Field(lists[1..][i].1, "id")
          && forall j :: 0 <= j < i ==> !NamedWithId(lists[1..][j].1, name);
        assert NamedWithId(lists[i + 1].1, name);
        forall j | 0 <= j < i + 1 ensures !NamedWithId(lists[j].1, name) {
          if j > 0 { assert lists[j] == lists[1..][j - 1]; }
        }
      } else {
        forall i | 0 <= i < |lists| ensures !NamedWithId(lists[i].1, name) {
          if i > 0 { assert lists[i] == lists[1..][i - 1]; }
        }
      }
    }
  }

  function AssignListId(st: ClientState, id: Json): Answer<string> {
    match ToStringProperty(id)
    case Threw(e) => Answer(Threw(e), st)
    case Ok(s) => Answer(Ok(s), st.(listId := Some(s)))
  }

  /** `ensureListId`. */
  function EnsureListIdStep(cfg: Config, st: ClientState): Answer<string> {
    if !EmptyText(st.listId) then Answer(Ok(st.listId.value), st)
    else
      var g := GetListsStep(cfg, st);
      if g.result.Threw? then Answer(Threw(g.result.error), g.state)
      else if g.result.value == [] then Answer(Threw(RuntimeException("Cloudflare account has no rules lists")), g.state)
      else if !EmptyText(cfg.listName) then
        match FirstNamedId(g.result.value, cfg.listName.value)
        case None => Answer(Threw(RuntimeException("Cloudflare rules list not found by name: " + cfg.listName.value)), g.state)
        case Some(id) => AssignListId(g.state, id)
      else
        var id := Field(Get(JArray(g.result.value), IntKey(0)), "id");
        if id != JNull then AssignListId(g.state, id)
        else Answer(Threw(RuntimeException("Unable to resolve Cloudflare list id")), g.state)
  }

  /** The query of one page request. */
  function ItemsQuery(cursor: Json): PhpArray {
    [(StrKey("per_page"), JInt(1000))] + (if Empty(cursor) then [] else [(StrKey("cursor"), cursor)])
  }

  /** The `result` of a page (an absent or null one reads as []). */
  function PageResult(data: Json): Json {
    Or(Field(data, "result"), JArray([]))
  }

  /** The cursor to the next page. */
  function After(data: Json): Json {
    Field(Field(Field(data, "result_info"), "cursors"), "after")
  }

  /** The request for the page at `cursor`. */
  function PageCall(path: string, cursor: Json): Call {
    Call(GET, path, ItemsQuery(cursor), JNull)
  }

  /** `array_merge($all, $items)` when the page's `result` is an array. */
  function MergePage(all: PhpArray, data: Json): PhpArray {
    var items := PageResult(data);
    if items.JArray? then ArrayMerge(all, items.entries) else all
  }

  /** The `while (true)` loop of `listItems` from a given accumulator and
      cursor: one request per page until a page has an empty `after`. */
  function FetchPages(st: ClientState, path: string, all: PhpArray, cursor: Json): Answer<PhpArray>
    decreases |st.replies|
  {
    var a := RequestStep(st, PageCall(path, cursor));
    if a.result.Threw? then Answer(Threw(a.result.error), a.state)
    else
      var data := a.result.value;
      if Empty(After(data)) then Answer(Ok(MergePage(all, data)), a.state)
      else FetchPages(a.state, path, MergePage(all, data), After(data))
  }

  /** One page of a listing run that succeeds. */
  lemma FetchPagesStep(st: ClientState, path: string, all: PhpArray, cursor: Json)
    requires FetchPages(st, path, all, cursor).result.Ok?
    ensures st.replies != [] && st.replies[0].Response?
    ensures var data := st.replies[0].body;
      var st' := st.(replies := st.replies[1..], sent := st.sent + [PageCall(path, cursor)]);
      FetchPages(st, path, all, cursor) ==
        if Empty(After(data)) then Answer(Ok(MergePage(all, data)), st')
        else FetchPages(st', path, MergePage(all, data), After(data))
  {
    RequestSucceeded(st, PageCall(path, cursor));
  }

  /** `listItems($useCache)`. */
  function ListItemsStep(cfg: Config, st: ClientState, useCache: bool): Answer<PhpArray> {
    if useCache && st.itemsCache.Some? then Answer(Ok(st.itemsCache.value), st)
    else
      var e := EnsureListIdStep(cfg, st);
      if e.result.Threw? then Answer(Threw(e.result.error), e.state)
      else
        var f := FetchPages(e.state, ItemsPath(cfg.accountId, e.result.value), [], JNull);
        if f.result.Threw? then f else Answer(f.result, f.state.(itemsCache := Some(f.result.value)))
  }

  /** The address an item stands for: its `ip`, else its `value`. */
  function ItemIp(item: Json): Json {
    Or(Field(item, "ip"), Field(item, "value"))
  }

  predicate HasIp(item: Json, ip: string) {
    ItemIp(item) == JStr(ip)
  }

  /** The first item whose address is `ip`, if any. */
  function FirstMatch(items: PhpArray, ip: string): Option<Json> {
    if items == [] then None
    else if HasIp(items[0].1, ip) then Some(items[0].1)
    else FirstMatch(items[1..], ip)
  }

  lemma {:induction false} FirstMatchMeaning(items: PhpArray, ip: string)
    ensures FirstMatch(items, ip).None? <==> forall i :: 0 <= i < |items| ==> !HasIp(items[i].1, ip)
    ensures FirstMatch(items, ip).Some? ==>
      exists i :: 0 <= i < |items| && FirstMatch(items, ip).value == items[i].1 && HasIp(items[i].1, ip)
        && forall j :: 0 <= j < i ==> !HasIp(items[j].1, ip)
  {
    if items != [] && !HasIp(items[0].1, ip) {
      FirstMatchMeaning(items[1..], ip);
      if FirstMatch(items, ip).Some? {
        var i :| 0 <= i < |items[1..]| && FirstMatch(items, ip).value == items[1..][i].1 && HasIp(items[1..][i].1, ip)
          && forall j :: 0 <= j < i ==> !HasIp(items[1..][j].1, ip);
        assert items[i + 1] == items[1..][i];
        forall j | 0 <= j < i + 1 ensures !HasIp(items[j].1, ip) {
          if j > 0 { assert items[j] == items[1..][j - 1]; }
        }
      } else {
        forall i | 0 <= i < |items| ensures !HasIp(items[i].1, ip) {
          if i > 0 { assert items[i] == items[1..][i - 1]; }
        }
      }
    }
  }

  /** `findItemByIp`. */
  function FindStep(cfg: Config, st: ClientState, ip: string): Answer<Option<Json>> {
    var l := ListItemsStep(cfg, st, true);
    if l.result.Threw? then Answer(Threw(l.result.error), l.state)
    else Answer(Ok(FirstMatch(l.result.value, ip)), l.state)
  }

  /** The body `{"items": [fields]}` of a mutation. */
  function ItemsBody(fields: PhpArray): Json {
    JArray([(StrKey("items"), JArray([(IntKey(0), JArray(fields))]))])
  }

  /** The tail shared by `addItem`, `deleteItemByIp` and `updateItemComment`:
      resolve the list, send the mutation, and drop the cache once it
      succeeded. */
  function MutateStep(cfg: Config, st: ClientState, verb: Verb, fields: PhpArray): Effect {
    var e := EnsureListIdStep(cfg, st);
    if e.result.Threw? then Effect(Raised(e.result.error), e.state)
    else
      var r := RequestStep(e.state, Call(verb, ItemsPath(cfg.accountId, e.result.value), [], ItemsBody(fields)));
      if r.result.Threw? then Effect(Raised(r.result.error), r.state)
      else Effect(Done, r.state.(itemsCache := None))
  }

  /** `addItem`. */
  function AddStep(cfg: Config, st: ClientState, ip: string, comment: string): Effect {
    MutateStep(cfg, st, POST, [(StrKey("ip"), JStr(ip)), (StrKey("comment"), JStr(comment))])
  }

  /** `deleteItemByIp`. */
  function DeleteStep(cfg: Config, st: ClientState, ip: string): Effect {
    var f := FindStep(cfg, st, ip);
    if f.result.Threw? then Effect(Raised(f.result.error), f.state)
    else if f.result.value.None? then Effect(Done, f.state)
    else
      var id := Field(f.result.value.value, "id");
      if Empty(id) then Effect(Done, f.state)
      else MutateStep(cfg, f.state, DELETE, [(StrKey("id"), id)])
  }

  /** `updateItemComment`. */
  function UpdateStep(cfg: Config, st: ClientState, ip: string, comment: string): Effect {
    var f := FindStep(cfg, st, ip);
    if f.result.Threw? then Effect(Raised(f.result.error), f.state)
    else if f.result.value.None? then AddStep(cfg, f.state, ip, comment)
    else
      var id := Field(f.result.value.value, "id");
      if Empty(id) then Effect(Done, f.state)
      else MutateStep(cfg, f.state, PUT, [(StrKey("id"), id), (StrKey("comment"), JStr(comment))])
  }

  /** `upsertItem`. */
  function UpsertStep(cfg: Config, st: ClientState, ip: string, comment: string): Effect {
    var f := FindStep(cfg, st, ip);
    if f.result.Threw? then Effect(Raised(f.result.error), f.state)
    else if f.result.value.None? then AddStep(cfg, f.state, ip, comment)
    else UpdateStep(cfg, f.state, ip, comment)
  }

  // ------------------------------------------------------------ properties

  /** What a request that succeeded consumed: one `Response` reply, whose
      body it returns, and one entry of the log. */
  lemma RequestSucceeded(st: ClientState, c: Call)
    requires RequestStep(st, c).result.Ok?
    ensures c.verb != DELETE && st.replies != [] && st.replies[0].Response?
    ensures RequestStep(st, c).result.value == st.replies[0].body
    ensures RequestStep(st, c).state == st.(replies := st.replies[1..], sent := st.sent + [c])
  {
  }

  /** A DELETE never reaches the server. */
  lemma DeleteRequestAlwaysFails(st: ClientState, c: Call)
    requires c.verb == DELETE
    ensures RequestStep(st, c) == Answer(Threw(UndefinedSend), st)
  {
  }

  /** A configured list id is returned as it is, without any request. */
  lemma ConfiguredListIdNoRequest(cfg: Config, st: ClientState)
    requires !EmptyText(st.listId)
    ensures EnsureListIdStep(cfg, st) == Answer(Ok(st.listId.value), st)
  {
  }

  /** Resolving the list id touches neither the cache nor anything but the
      transport; a resolved id is stored, and once it is stored (and not
      empty in PHP's sense) later resolutions return it without a request. */
  lemma ResolvedListIdSticks(cfg: Config, st: ClientState)
    ensures var e := EnsureListIdStep(cfg, st);
      && e.state.itemsCache == st.itemsCache
      && (e.result.Ok? ==> e.state.listId == Some(e.result.value))
      && (e.result.Threw? ==> e.state.listId == st.listId)
      && (e.result.Ok? && !EmptyText(Some(e.result.value)) ==> EnsureListIdStep(cfg, e.state) == e)
  {
    if EmptyText(st.listId) {
      GetListsKeepsFields(cfg, st);
    }
  }

  /** Fetching the lists touches only the transport. */
  lemma GetListsKeepsFields(cfg: Config, st: ClientState)
    ensures GetListsStep(cfg, st).state.listId == st.listId
    ensures GetListsStep(cfg, st).state.itemsCache == st.itemsCache
  {
  }

  /** Without a configured id, an account without lists is an error. */
  lemma NoListsIsError(cfg: Config, st: ClientState)
    requires EmptyText(st.listId)
    requires GetListsStep(cfg, st).result == Ok([])
    ensures EnsureListIdStep(cfg, st).result == Threw(RuntimeException("Cloudflare account has no rules lists"))
  {
  }

  /** With a name filter and no list of that name, resolution fails. */
  lemma UnknownNameIsError(cfg: Config, st: ClientState)
    requires EmptyText(st.listId) && !EmptyText(cfg.listName)
    requires GetListsStep(cfg, st).result.Ok? && GetListsStep(cfg, st).result.value != []
    requires forall i :: 0 <= i < |GetListsStep(cfg, st).result.value| ==>
      !NamedWithId(GetListsStep(cfg, st).result.value[i].1, cfg.listName.value)
    ensures EnsureListIdStep(cfg, st).result ==
      Threw(RuntimeException("Cloudflare rules list not found by name: " + cfg.listName.value))
  {
    FirstNamedIdMeaning(GetListsStep(cfg, st).result.value, cfg.listName.value);
  }

  /** With a name filter, a resolved id comes from the first list of that name. */
  lemma NamedListResolution(cfg: Config, st: ClientState)
    requires EmptyText(st.listId) && !EmptyText(cfg.listName)
    requires EnsureListIdStep(cfg, st).result.Ok?
    ensures var lists := GetListsStep(cfg, st).result;
      lists.Ok? &&
      exists i :: 0 <= i < |lists.value| && NamedWithId(lists.value[i].1, cfg.listName.value)
        && ToStringProperty(Field(lists.value[i].1, "id")) == Ok(EnsureListIdStep(cfg, st).result.value)
        && forall j :: 0 <= j < i ==> !NamedWithId(lists.value[j].1, cfg.listName.value)
  {
    var g := GetListsStep(cfg, st);
    var lists, name := g.result.value, cfg.listName.value;
    FirstNamedIdMeaning(lists, name);
    var i :| 0 <= i < |lists| && NamedWithId(lists[i].1, name)
      && FirstNamedId(lists, name).value == Field(lists[i].1, "id")
      && forall j :: 0 <= j < i ==> !NamedWithId(lists[j].1, name);
    assert ToStringProperty(Field(lists[i].1, "id")) == Ok(EnsureListIdStep(cfg, st).result.value);
  }

  /** The body of a reply, JNull for an unreachable server. */
  function Body(r: Reply): Json {
    if r.Response? then r.body else JNull
  }

  /** The page requests a run over the replies rs performs, starting from
      `cursor`: each after the first carries the previous page's `after`. */
  function PageCalls(path: string, cursor: Json, rs: seq<Reply>): seq<Call>
    decreases |rs|
  {
    if rs == [] then []
    else [Call(GET, path, ItemsQuery(cursor), JNull)] + PageCalls(path, After(Body(rs[0])), rs[1..])
  }

  /** The items of one page. */
  function PageItems(r: Reply): seq<Json> {
    var items := PageResult(Body(r));
    if items.JArray? then Values(items.entries) else []
  }

  /** The items of the pages rs, one page after the other. */
  function PageValues(rs: seq<Reply>): seq<Json> {
    if rs == [] then [] else PageItems(rs[0]) + PageValues(rs[1..])
  }

  /** How many replies a listing run consumes. */
  function Consumed(st: ClientState, path: string, all: PhpArray, cursor: Json): int {
    |st.replies| - |FetchPages(st, path, all, cursor).state.replies|
  }

  /** A listing run that succeeds consumes k >= 1 replies from the front of
      the script. */
  lemma {:induction false} FetchPagesConsumes(st: ClientState, path: string, all: PhpArray, cursor: Json)
    requires FetchPages(st, path, all, cursor).result.Ok?
    ensures var k := Consumed(st, path, all, cursor);
      1 <= k <= |st.replies| && FetchPages(st, path, all, cursor).state.replies == st.replies[k..]
    decreases |st.replies|
  {
    FetchPagesStep(st, path, all, cursor);
    var data := st.replies[0].body;
    if !Empty(After(data)) {
      var st' := st.(replies := st.replies[1..], sent := st.sent + [PageCall(path, cursor)]);
      FetchPagesConsumes(st', path, MergePage(all, data), After(data));
    }
  }

  /** ... sends exactly the page requests, each after the first carrying
      the previous page's cursor ... */
  lemma {:induction false} FetchPagesSends(st: ClientState, path: string, all: PhpArray, cursor: Json)
    requires FetchPages(st, path, all, cursor).result.Ok?
    ensures var k := Consumed(st, path, all, cursor);
      0 <= k <= |st.replies| &&
      FetchPages(st, path, all, cursor).state.sent == st.sent + PageCalls(path, cursor, st.replies[..k])
    decreases |st.replies|
  {
    FetchPagesStep(st, path, all, cursor);
    FetchPagesConsumes(st, path, all, cursor);
    var data := st.replies[0].body;
    var k := Consumed(st, path, all, cursor);
    var rs := st.replies[..k];
    if Empty(After(data)) {
      assert rs == [st.replies[0]];
      assert PageCalls(path, cursor, rs) == [PageCall(path, cursor)] + PageCalls(path, After(data), []);
    } else {
      var st' := st.(replies := st.replies[1..], sent := st.sent + [PageCall(path, cursor)]);
      FetchPagesSends(st', path, MergePage(all, data), After(data));
      FetchPagesConsumes(st', path, MergePage(all, data), After(data));
      var k' := Consumed(st', path, MergePage(all, data), After(data));
      assert k == k' + 1;
      assert rs[0] == st.replies[0] && rs[1..] == st'.replies[..k'];
      assert PageCalls(path, cursor, rs) == [PageCall(path, cursor)] + PageCalls(path, After(data), st'.replies[..k']);
      assert FetchPages(st, path, all, cursor) == FetchPages(st', path, MergePage(all, data), After(data));
    }
  }

  /** ... and stops at the first page whose `after` cursor is empty. */
  lemma {:induction false} FetchPagesStops(st: ClientState, path: string, all: PhpArray, cursor: Json)
    requires FetchPages(st, path, all, cursor).result.Ok?
    ensures var k := Consumed(st, path, all, cursor);
      && 1 <= k <= |st.replies|
      && (forall i :: 0 <= i < k - 1 ==> !Empty(After(Body(st.replies[i]))))
      && Empty(After(Body(st.replies[k - 1])))
    decreases |st.replies|
  {
    FetchPagesStep(st, path, all, cursor);
    FetchPagesConsumes(st, path, all, cursor);
    var data := st.replies[0].body;
    assert Body(st.replies[0]) == data;
    if !Empty(After(data)) {
      var st' := st.(replies := st.replies[1..], sent := st.sent + [PageCall(path, cursor)]);
      FetchPagesStops(st', path, MergePage(all, data), After(data));
      var k := Consumed(st, path, all, cursor);
      var k' := Consumed(st', path, MergePage(all, data), After(data));
      assert k == k' + 1;
      forall i | 0 <= i < k - 1 ensures !Empty(After(Body(st.replies[i]))) {
        if i > 0 { assert st.replies[i] == st'.replies[i - 1]; }
      }
      assert st.replies[k - 1] == st'.replies[k' - 1];
    }
  }

  /** A page whose `result` is a JSON list (or absent). */
  predicate ListPage(r: Reply) {
    PageResult(Body(r)).JArray? && IsList(PageResult(Body(r)).entries)
  }

  predicate ListPages(rs: seq<Reply>) {
    rs == [] || (ListPage(rs[0]) && ListPages(rs[1..]))
  }

  /** When every page lists its items as a JSON list, a listing run returns
      the accumulated items followed by every consumed page's items, in
      order. */
  lemma {:induction false} FetchPagesConcat(st: ClientState, path: string, all: PhpArray, cursor: Json)
    requires FetchPages(st, path, all, cursor).result.Ok?
    requires ListPages(st.replies)
    ensures var k := Consumed(st, path, all, cursor);
      0 <= k <= |st.replies| &&
      Values(FetchPages(st, path, all, cursor).result.value) == Values(all) + PageValues(st.replies[..k])
    decreases |st.replies|
  {
    FetchPagesMerges(st, path, all, cursor);
    var k := Consumed(st, path, all, cursor);
    ListPagesPrefix(st.replies, k);
    MergeAllValues(all, st.replies[..k]);
  }

  /** The accumulator after merging the pages rs in order. */
  function MergeAll(all: PhpArray, rs: seq<Reply>): PhpArray
    decreases |rs|
  {
    if rs == [] then all else MergeAll(MergePage(all, Body(rs[0])), rs[1..])
  }

  /** A listing run that succeeds returns the merge of the pages it consumed. */
  lemma {:induction false} FetchPagesMerges(st: ClientState, path: string, all: PhpArray, cursor: Json)
    requires FetchPages(st, path, all, cursor).result.Ok?
    ensures var k := Consumed(st, path, all, cursor);
      0 <= k <= |st.replies| &&
      FetchPages(st, path, all, cursor).result.value == MergeAll(all, st.replies[..k])
    decreases |st.replies|
  {
    FetchPagesStep(st, path, all, cursor);
    FetchPagesConsumes(st, path, all, cursor);
    var data := st.replies[0].body;
    var k := Consumed(st, path, all, cursor);
    var rs := st.replies[..k];
    assert Body(st.replies[0]) == data;
    if Empty(After(data)) {
      assert rs == [st.replies[0]];
      assert MergeAll(all, rs) == MergeAll(MergePage(all, data), []);
    } else {
      var st' := st.(replies := st.replies[1..], sent := st.sent + [PageCall(path, cursor)]);
      FetchPagesMerges(st', path, MergePage(all, data), After(data));
      FetchPagesConsumes(st', path, MergePage(all, data), After(data));
      var k' := Consumed(st', path, MergePage(all, data), After(data));
      assert k == k' + 1;
      assert rs[0] == st.replies[0] && rs[1..] == st'.replies[..k'];
      assert MergeAll(all, rs) == MergeAll(MergePage(all, data), st'.replies[..k']);
      assert FetchPages(st, path, all, cursor) == FetchPages(st', path, MergePage(all, data), After(data));
    }
  }

  lemma {:induction false} ListPagesPrefix(rs: seq<Reply>, n: nat)
    requires ListPages(rs) && n <= |rs|
    ensures ListPages(rs[..n])
  {
    if n > 0 {
      ListPagesPrefix(rs[1..], n - 1);
      assert rs[..n][1..] == rs[1..][..n - 1];
    }
  }

  /** Merging list pages appends their items in order. */
  lemma {:induction false} MergeAllValues(all: PhpArray, rs: seq<Reply>)
    requires ListPages(rs)
    ensures Values(MergeAll(all, rs)) == Values(all) + PageValues(rs)
    decreases |rs|
  {
    if rs != [] {
      var merged := MergePage(all, Body(rs[0]));
      MergePageValues(all, rs[0]);
      MergeAllValues(merged, rs[1..]);
    }
  }

  lemma MergePageValues(all: PhpArray, r: Reply)
    requires ListPage(r)
    ensures Values(MergePage(all, Body(r))) == Values(all) + PageItems(r)
  {
    MergeListValues(all, PageResult(Body(r)).entries);
  }

  /** A populated cache answers a cached listing without any request. */
  lemma CachedListingNoRequest(cfg: Config, st: ClientState)
    requires st.itemsCache.Some?
    ensures ListItemsStep(cfg, st, true) == Answer(Ok(st.itemsCache.value), st)
  {
  }

  /** A listing that succeeds leaves the cache holding exactly its result; one
      that fails leaves the cache as it was. */
  lemma ListingSetsCache(cfg: Config, st: ClientState, useCache: bool)
    ensures var l := ListItemsStep(cfg, st, useCache);
      && (l.result.Ok? ==> l.state.itemsCache == Some(l.result.value))
      && (l.result.Threw? ==> l.state.itemsCache == st.itemsCache)
  {
    ResolvedListIdSticks(cfg, st);
    var e := EnsureListIdStep(cfg, st);
    if !(useCache && st.itemsCache.Some?) && e.result.Ok? {
      var f := FetchPages(e.state, ItemsPath(cfg.accountId, e.result.value), [], JNull);
      FetchPagesKeepsFields(e.state, ItemsPath(cfg.accountId, e.result.value), [], JNull);
    }
  }

  lemma {:induction false} FetchPagesKeepsFields(st: ClientState, path: string, all: PhpArray, cursor: Json)
    ensures var f := FetchPages(st, path, all, cursor);
      f.state.listId == st.listId && f.state.itemsCache == st.itemsCache
    decreases |st.replies|
  {
    var a := RequestStep(st, PageCall(path, cursor));
    if a.result.Ok? {
      RequestSucceeded(st, PageCall(path, cursor));
      var data := a.result.value;
      if !Empty(After(data)) {
        FetchPagesKeepsFields(a.state, path, MergePage(all, data), After(data));
      }
    }
  }

  /** A mutation that went through drops the cache; one that failed leaves
      it as it was. */
  lemma MutationCache(cfg: Config, st: ClientState, verb: Verb, fields: PhpArray)
    ensures var m := MutateStep(cfg, st, verb, fields);
      && (m.status.Done? ==> m.state.itemsCache == None)
      && (m.status.Raised? ==> m.state.itemsCache == st.itemsCache)
  {
    ResolvedListIdSticks(cfg, st);
  }

  /** A delete succeeds exactly when the lookup finds nothing to delete: no
      item for the address, or one without an id; it then sends no further
      request and keeps the state the lookup left. */
  lemma DeleteSucceedsOnlyAsNoOp(cfg: Config, st: ClientState, ip: string)
    ensures var d := DeleteStep(cfg, st, ip);
      var f := FindStep(cfg, st, ip);
      d.status.Done? ==>
        && f.result.Ok?
        && (f.result.value.None? || Empty(Field(f.result.value.value, "id")))
        && d.state == f.state
    ensures var d := DeleteStep(cfg, st, ip);
      var f := FindStep(cfg, st, ip);
      f.result.Ok? && (f.result.value.None? || Empty(Field(f.result.value.value, "id"))) ==>
        d == Effect(Done, f.state)
  {
    var f := FindStep(cfg, st, ip);
    if f.result.Ok? && f.result.value.Some? && !Empty(Field(f.result.value.value, "id")) {
      var id := Field(f.result.value.value, "id");
      var e := EnsureListIdStep(cfg, f.state);
      if e.result.Ok? {
        DeleteRequestAlwaysFails(e.state, Call(DELETE, ItemsPath(cfg.accountId, e.result.value), [], ItemsBody([(StrKey("id"), id)])));
      }
    }
  }

  /** The lookup answers with the first item carrying the address, after a
      listing that used the cache when there was one. */
  lemma FindMeaning(cfg: Config, st: ClientState, ip: string)
    ensures var f := FindStep(cfg, st, ip);
      var l := ListItemsStep(cfg, st, true);
      && f.state == l.state
      && (f.result.Ok? <==> l.result.Ok?)
      && (f.result == Ok(None) ==> forall i :: 0 <= i < |l.result.value| ==> !HasIp(l.result.value[i].1, ip))
      && (f.result.Ok? && f.result.value.Some? ==>
            exists i :: 0 <= i < |l.result.value| && f.result.value.value == l.result.value[i].1
              && HasIp(l.result.value[i].1, ip)
              && forall j :: 0 <= j < i ==> !HasIp(l.result.value[j].1, ip))
  {
    var l := ListItemsStep(cfg, st, true);
    if l.result.Ok? {
      FirstMatchMeaning(l.result.value, ip);
    }
  }

  // ------------------------------------------------------------ the objects

  /** The first list of the given name that has an id: the `foreach` of
      `ensureListId`. */
  method FindNamedList(lists: PhpArray, name: string) returns (id: Option<Json>)
    ensures id == FirstNamedId(lists, name)
  {
    var i := 0;
    while i < |lists|
      invariant 0 <= i <= |lists|
      invariant FirstNamedId(lists[i..], name) == FirstNamedId(lists, name)
    {
      assert lists[i..][1..] == lists[i + 1..];
      if Field(lists[i].1, "name") == JStr(name) && Field(lists[i].1, "id") != JNull {
        return Some(Field(lists[i].1, "id"));
      }
      i := i + 1;
    }
    return None;
  }

  /** The first item carrying the address: the `foreach` of `findItemByIp`. */
  method FindIp(items: PhpArray, ip: string) returns (item: Option<Json>)
    ensures item == FirstMatch(items, ip)
  {
    var i := 0;
    while i < |items|
      invariant 0 <= i <= |items|
      invariant FirstMatch(items[i..], ip) == FirstMatch(items, ip)
    {
      assert items[i..][1..] == items[i + 1..];
      var value := Or(Field(items[i].1, "ip"), Field(items[i].1, "value"));
      if value == JStr(ip) {
        return Some(items[i].1);
      }
      i := i + 1;
    }
    return None;
  }

  /** The HTTP transport: the replies it has yet to get and the requests it
      has performed. */
  class Transport {
    var replies: seq<Reply>
    var sent: seq<Call>

    constructor (replies: seq<Reply>)
      ensures this.replies == replies && sent == []
    {
      this.replies := replies;
      sent := [];
    }

    /** `HttpClient::get`, `post` or `put`: perform the call and take the
        next reply. */
    method Perform(c: Call) returns (r: Result<Json>)
      modifies this
      ensures r == Transported(c.verb, old(replies))
      ensures replies == Drop1(old(replies)) && sent == old(sent) + [c]
    {
      r := Transported(c.verb, replies);
      replies := Drop1(replies);
      sent := sent + [c];
    }
  }

  /** `CloudflareRulesListClient`: the lazily resolved list id and the items
      cache over a transport. */
  class Client {
    const config: Config
    const transport: Transport
    var listId: Option<string>
    var itemsCache: Option<PhpArray>

    /** `__construct`: the cache starts unset. */
    constructor (config: Config, listId: Option<string>, transport: Transport)
      ensures this.config == config && this.transport == transport
      ensures this.listId == listId && itemsCache.None?
    {
      this.config := config;
      this.transport := transport;
      this.listId := listId;
      itemsCache := None;
    }

    function State(): ClientState
      reads this, transport
    {
      ClientState(listId, itemsCache, transport.replies, transport.sent)
    }

    /** `request` followed by `decodeResponse`. */
    method Request(c: Call) returns (r: Result<Json>)
      modifies transport
      ensures Answer(r, State()) == RequestStep(old(State()), c)
    {
      if c.verb == DELETE {
        return Threw(UndefinedSend);
      }
      var t := transport.Perform(c);
      if t.Threw? {
        return Threw(t.error);
      }
      r := DecodeResponse(t.value);
    }

    /** `getLists`. */
    method GetLists() returns (r: Result<PhpArray>)
      modifies transport
      ensures Answer(r, State()) == GetListsStep(config, old(State()))
    {
      var data := Request(Call(GET, ListsPath(config.accountId), [], JNull));
      if data.Threw? {
        return Threw(data.error);
      }
      var res := Or(Field(data.value, "result"), JArray([]));
      if !res.JArray? {
        return Threw(TypeError("CloudflareRulesListClient::getLists(): Return value must be of type array"));
      }
      return Ok(res.entries);
    }

    method AssignId(id: Json) returns (r: Result<string>)
      modifies this
      ensures Answer(r, State()) == AssignListId(old(State()), id)
    {
      var s := ToStringProperty(id);
      if s.Threw? {
        return Threw(s.error);
      }
      listId := Some(s.value);
      return Ok(s.value);
    }

    /** `ensureListId`. */
    method EnsureListId() returns (r: Result<string>)
      modifies this, transport
      ensures Answer(r, State()) == EnsureListIdStep(config, old(State()))
    {
      if !EmptyText(listId) {
        return Ok(listId.value);
      }
      var lists := GetLists();
      if lists.Threw? {
        return Threw(lists.error);
      }
      if lists.value == [] {
        return Threw(RuntimeException("Cloudflare account has no rules lists"));
      }
      if !EmptyText(config.listName) {
        var found := FindNamedList(lists.value, config.listName.value);
        if found.None? {
          return Threw(RuntimeException("Cloudflare rules list not found by name: " + config.listName.value));
        }
        r := AssignId(found.value);
        return;
      }
      var id := Field(Get(JArray(lists.value), IntKey(0)), "id");
      if id == JNull {
        return Threw(RuntimeException("Unable to resolve Cloudflare list id"));
      }
      r := AssignId(id);
    }

    /** `listItems($useCache)`. */
    method ListItems(useCache: bool) returns (r: Result<PhpArray>)
      modifies this, transport
      ensures Answer(r, State()) == ListItemsStep(config, old(State()), useCache)
    {
      if useCache && itemsCache.Some? {
        return Ok(itemsCache.value);
      }
      var id := EnsureListId();
      if id.Threw? {
        return Threw(id.error);
      }
      var path := ItemsPath(config.accountId, id.value);
      ghost var st0 := State();
      var all: PhpArray := [];
      var cursor := JNull;
      while true
        invariant FetchPages(State(), path, all, cursor) == FetchPages(st0, path, [], JNull)
        invariant listId == st0.listId && itemsCache == st0.itemsCache
        decreases |transport.replies|
      {
        ghost var before := State();
        var data := Request(PageCall(path, cursor));
        if data.Threw? {
          return Threw(data.error);
        }
        RequestSucceeded(before, PageCall(path, cursor));
        all := MergePage(all, data.value);
        if Empty(After(data.value)) {
          break;
        }
        cursor := After(data.value);
      }
      itemsCache := Some(all);
      return Ok(all);
    }

    /** `findItemByIp`. */
    method FindItemByIp(ip: string) returns (r: Result<Option<Json>>)
      modifies this, transport
      ensures Answer(r, State()) == FindStep(config, old(State()), ip)
    {
      var items := ListItems(true);
      if items.Threw? {
        return Threw(items.error);
      }
      var item := FindIp(items.value, ip);
      return Ok(item);
    }

    /** The shared tail of the three mutations. */
    method Mutate(verb: Verb, fields: PhpArray) returns (s: Status)
      modifies this, transport
      ensures Effect(s, State()) == MutateStep(config, old(State()), verb, fields)
    {
      var id := EnsureListId();
      if id.Threw? {
        return Raised(id.error);
      }
      var r := Request(Call(verb, ItemsPath(config.accountId, id.value), [], ItemsBody(fields)));
      if r.Threw? {
        return Raised(r.error);
      }
      itemsCache := None;
      return Done;
    }

    /** `addItem`. */
    method AddItem(ip: string, comment: string) returns (s: Status)
      modifies this, transport
      ensures Effect(s, State()) == AddStep(config, old(State()), ip, comment)
    {
      s := Mutate(POST, [(StrKey("ip"), JStr(ip)), (StrKey("comment"), JStr(comment))]);
    }

    /** `deleteItemByIp`. */
    method DeleteItemByIp(ip: string) returns (s: Status)
      modifies this, transport
      ensures Effect(s, State()) == DeleteStep(config, old(State()), ip)
    {
      var item := FindItemByIp(ip);
      if item.Threw? {
        return Raised(item.error);
      }
      if item.value.None? {
        return Done;
      }
      var id := Field(item.value.value, "id");
      if Empty(id) {
        return Done;
      }
      s := Mutate(DELETE, [(StrKey("id"), id)]);
    }

    /** `updateItemComment`. */
    method UpdateItemComment(ip: string, comment: string) returns (s: Status)
      modifies this, transport
      ensures Effect(s, State()) == UpdateStep(config, old(State()), ip, comment)
    {
      var item := FindItemByIp(ip);
      if item.Threw? {
        return Raised(item.error);
      }
      if item.value.None? {
        s := AddItem(ip, comment);
        return;
      }
      var id := Field(item.value.value, "id");
      if Empty(id) {
        return Done;
      }
      s := Mutate(PUT, [(StrKey("id"), id), (StrKey("comment"), JStr(comment))]);
    }

    /** `upsertItem`. */
    method UpsertItem(ip: string, comment: string) returns (s: Status)
      modifies this, transport
      ensures Effect(s, State()) == UpsertStep(config, old(State()), ip, comment)
    {
      var item := FindItemByIp(ip);
      if item.Threw? {
        return Raised(item.error);
      }
      if item.value.None? {
        s := AddItem(ip, comment);
        return;
      }
      s := UpdateItemComment(ip, comment);
    }
  }
}
