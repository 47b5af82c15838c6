/** The manifest `index.toml` as the three scripts see it once `tomllib` has parsed it: a
    `config` table and a `cookbook` list of entry tables whose keys are all optional. */
module IndexToml {
  import opened Wrappers
  import opened PyText

  /** The TOML values the scripts look at. */
  datatype Value = Bool(b: bool) | Int(i: int) | Str(s: string) | Arr(items: seq<Value>)

  /** Python truthiness: `False`, `0`, `""` and `[]` are false, everything else true. */
  predicate Truthy(v: Value) {
    match v
    case Bool(b) => b
    case Int(i) => i != 0
    case Str(s) => s != ""
    case Arr(items) => items != []
  }

  /** `entry.get(key, default)` used as a condition. */
  predicate TruthyOr(v: Option<Value>, default: bool) {
    match v
    case None => default
    case Some(x) => Truthy(x)
  }

  function HexDigit(d: nat): char
    requires d < 16
  {
    "0123456789abcdef"[d]
  }

  /** One character inside the quotes of Python's `repr()` of a string. */
  function EscapeChar(c: char, quote: char): string {
    if c == '\\' then "\\\\"
    else if c == quote then ['\\', quote]
    else if c == '\t' then "\\t"
    else if c == '\n' then "\\n"
    else if c == '\r' then "\\r"
    else if c < ' ' || c == '\U{7f}' then ['\\', 'x', HexDigit(c as int / 16), HexDigit(c as int % 16)]
    else [c]
  }

  function EscapeAll(s: string, quote: char): string {
    if s == [] then "" else EscapeChar(s[0], quote) + EscapeAll(s[1..], quote)
  }

  /** Python's `repr()` of a string: single quotes, unless the text holds a single quote
      and no double quote. */
  function QuoteRepr(s: string): string {
    var quote := if '\'' in s && '"' !in s then '"' else '\'';
    [quote] + EscapeAll(s, quote) + [quote]
  }

  /** Python's `repr()` of a value; lists show their items' `repr()`. */
  function Repr(v: Value): string
    decreases v
  {
    match v
    case Bool(b) => if b then "True" else "False"
    case Int(i) => IntDecimal(i)
    case Str(s) => QuoteRepr(s)
    case Arr(items) => "[" + Join(ReprItems(items), ", ") + "]"
  }

  function ReprItems(items: seq<Value>): (r: seq<string>)
    ensures |r| == |items|
    decreases items
  {
    if items == [] then [] else [Repr(items[0])] + ReprItems(items[1..])
  }

  /** Python's `str()` of a value, which is what an f-string substitutes: a string shows
      as itself, everything else as its `repr()`. */
  function Render(v: Value): string {
    match v
    case Str(s) => s
    case _ => Repr(v)
  }

  /** One `[[cookbook]]` table. Every key is optional; `None` means the key is absent. */
  datatype Entry = Entry(
    notebook: Option<string>,
    title: Option<Value>,
    topics: Option<Value>,
    featured: Option<Value>,
    experimental: Option<Value>,
    discuss: Option<Value>,
    hidden: Option<Value>,
    isNew: Option<Value>,            // the key `new`
    needsGpu: Option<Value>,         // the key `needs_gpu`
    colab: Option<Value>,
    haystackVersion: Option<Value>,  // the key `haystack_version`
    dependencies: Option<Value>)

  /** The `[config]` table. */
  datatype Config = Config(colab: Option<Value>)

  /** The whole manifest. */
  datatype Index = Index(config: Option<Config>, cookbook: seq<Entry>)

  function Item(key: string, v: Option<Value>): seq<string> {
    match v
    case None => []
    case Some(x) => [QuoteRepr(key) + ": " + Repr(x)]
  }

  /** Python's `str()` of an entry's dict: its present keys with their values' `repr()`. */
  function EntryRepr(e: Entry): string {
    var notebook := match e.notebook case None => None case Some(n) => Some(Str(n));
    var items :=
      Item("notebook", notebook) + Item("title", e.title) + Item("topics", e.topics)
      + Item("featured", e.featured) + Item("experimental", e.experimental)
      + Item("discuss", e.discuss) + Item("hidden", e.hidden) + Item("new", e.isNew)
      + Item("needs_gpu", e.needsGpu) + Item("colab", e.colab)
      + Item("haystack_version", e.haystackVersion) + Item("dependencies", e.dependencies);
    "{" + Join(items, ", ") + "}"
  }
}
