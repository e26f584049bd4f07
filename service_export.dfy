/**
 * The text generation of `exportToROS` in service_store.js: the `key: value`
 * file format, the service key derived from the service name, the parameter
 * objects built from key/value pairs, the `.service` record and the names of
 * the files written beside a package's package.xml.
 *
 * A JavaScript object is modelled as its fields in insertion order.
 */
module ServiceExport {
  import opened Wrappers

  /** One property of a JavaScript object. */
  datatype Field = Field(key: string, value: string)

  /** One `{key, value}` entry of a parameter list, as the editor sends it. */
  datatype Entry = Entry(key: string, value: string)

  predicate DistinctKeys(obj: seq<Field>) {
    forall i, j :: 0 <= i < j < |obj| ==> obj[i].key != obj[j].key
  }

  function Keys(obj: seq<Field>): (ks: seq<string>)
    ensures |ks| == |obj| && forall i :: 0 <= i < |obj| ==> ks[i] == obj[i].key
  {
    if obj == [] then [] else [obj[0].key] + Keys(obj[1..])
  }

  /** The value stored under `k`, if any. */
  function Lookup(obj: seq<Field>, k: string): (r: Option<string>)
    ensures r.Some? <==> k in Keys(obj)
  {
    if obj == [] then None else if obj[0].key == k then Some(obj[0].value) else Lookup(obj[1..], k)
  }

  /** In an object with distinct keys, each property is what its key looks up. */
  lemma {:induction false} LookupAt(obj: seq<Field>, i: nat)
    requires DistinctKeys(obj) && i < |obj|
    ensures Lookup(obj, obj[i].key) == Some(obj[i].value)
  {
    if i > 0 {
      assert obj[0].key != obj[i].key;
      assert obj[1..][i - 1] == obj[i];
      LookupAt(obj[1..], i - 1);
    }
  }

  /**
   * `obj[k] = v`: an existing property keeps its place and takes the new
   * value, a new one goes last; nothing else changes.
   */
  function Assign(obj: seq<Field>, k: string, v: string): seq<Field>
  {
    if obj == [] then [Field(k, v)]
    else if obj[0].key == k then [Field(k, v)] + obj[1..]
    else [obj[0]] + Assign(obj[1..], k, v)
  }

  /** After `obj[k] = v`, `k` looks up `v` and every other key what it did before. */
  lemma {:induction false} AssignLookup(obj: seq<Field>, k: string, v: string, k': string)
    ensures Lookup(Assign(obj, k, v), k') == if k' == k then Some(v) else Lookup(obj, k')
  {
    if obj != [] && obj[0].key != k {
      AssignLookup(obj[1..], k, v, k');
    }
  }

  /** The keys after `obj[k] = v`: unchanged when `k` was present, else `k` last. */
  lemma {:induction false} AssignKeys(obj: seq<Field>, k: string, v: string)
    ensures Keys(Assign(obj, k, v)) == if k in Keys(obj) then Keys(obj) else Keys(obj) + [k]
  {
    if obj != [] && obj[0].key != k {
      AssignKeys(obj[1..], k, v);
      assert Keys(obj) == [obj[0].key] + Keys(obj[1..]);
    } else if obj != [] {
      assert Keys(Assign(obj, k, v)) == [k] + Keys(obj[1..]);
    }
  }

  /** Assigning keeps the keys distinct. */
  lemma {:induction false} AssignDistinct(obj: seq<Field>, k: string, v: string)
    requires DistinctKeys(obj)
    ensures DistinctKeys(Assign(obj, k, v))
  {
    if obj != [] && obj[0].key != k {
      var rest := Assign(obj[1..], k, v);
      AssignDistinct(obj[1..], k, v);
      AssignKeys(obj[1..], k, v);
      HeadNotInTail(obj);
      ConsDistinct(obj[0], rest);
    } else if obj != [] {
      var r := Assign(obj, k, v);
      forall i, j | 0 <= i < j < |r| ensures r[i].key != r[j].key {
        assert r[j] == obj[j];
        assert i == 0 || r[i] == obj[i];
      }
    }
  }

  lemma HeadNotInTail(obj: seq<Field>)
    requires obj != [] && DistinctKeys(obj)
    ensures obj[0].key !in Keys(obj[1..])
  {
    forall j | 0 <= j < |obj[1..]| ensures Keys(obj[1..])[j] != obj[0].key {
      assert obj[1..][j] == obj[j + 1];
    }
  }

  lemma ConsDistinct(f: Field, rest: seq<Field>)
    requires DistinctKeys(rest) && f.key !in Keys(rest)
    ensures DistinctKeys([f] + rest)
  {
    var r := [f] + rest;
    forall i, j | 0 <= i < j < |r| ensures r[i].key != r[j].key {
      assert r[j] == rest[j - 1];
      if i == 0 {
        assert Keys(rest)[j - 1] == rest[j - 1].key;
      } else {
        assert r[i] == rest[i - 1];
      }
    }
  }

  /** A new key is appended. */
  lemma {:induction false} AssignNew(obj: seq<Field>, k: string, v: string)
    requires forall j :: 0 <= j < |obj| ==> obj[j].key != k
    ensures Assign(obj, k, v) == obj + [Field(k, v)]
  {
    if obj != [] {
      AssignNew(obj[1..], k, v);
      assert obj == [obj[0]] + obj[1..];
    }
  }

  /** An existing key takes the new value in its place. */
  lemma {:induction false} AssignExisting(obj: seq<Field>, i: nat, v: string)
    requires i < |obj| && forall j :: 0 <= j < i ==> obj[j].key != obj[i].key
    ensures var r := Assign(obj, obj[i].key, v);
      |r| == |obj| && r[i] == Field(obj[i].key, v) && forall j :: 0 <= j < |obj| && j != i ==> r[j] == obj[j]
  {
    if i > 0 {
      var k := obj[i].key;
      assert obj[0].key != k;
      assert obj[1..][i - 1] == obj[i];
      AssignExisting(obj[1..], i - 1, v);
      assert Assign(obj, k, v) == [obj[0]] + Assign(obj[1..], k, v);
    }
  }

  // ---------------------------------------------------------------------
  // `R.fromPairs`

  /** `R.fromPairs`: each pair in turn is assigned, so a later duplicate key overrides an earlier one. */
  function FromPairs(es: seq<Entry>): (r: seq<Field>)
    ensures DistinctKeys(r)
  {
    if es == [] then []
    else
      var init := FromPairs(es[..|es| - 1]);
      AssignDistinct(init, es[|es| - 1].key, es[|es| - 1].value);
      Assign(init, es[|es| - 1].key, es[|es| - 1].value)
  }

  /** The value of the last entry with key `k`. */
  function LastValue(es: seq<Entry>, k: string): (r: Option<string>)
    ensures r.Some? <==> exists i :: 0 <= i < |es| && es[i].key == k
    ensures r.Some? ==> exists i :: 0 <= i < |es| && es[i].key == k && es[i].value == r.value
                                    && forall j :: i < j < |es| ==> es[j].key != k
  {
    if es == [] then None
    else if es[|es| - 1].key == k then Some(es[|es| - 1].value)
    else
      var r := LastValue(es[..|es| - 1], k);
      assert forall i :: 0 <= i < |es| - 1 ==> es[..|es| - 1][i] == es[i];
      r
  }

  /** The keys of `ks` in order of first appearance. */
  function FirstOccurrences(ks: seq<string>): (r: seq<string>)
    ensures forall k :: k in r <==> k in ks
  {
    if ks == [] then []
    else
      var d := FirstOccurrences(ks[..|ks| - 1]);
      assert ks == ks[..|ks| - 1] + [ks[|ks| - 1]];
      if ks[|ks| - 1] in d then d else d + [ks[|ks| - 1]]
  }

  function EntryKeys(es: seq<Entry>): (ks: seq<string>)
    ensures |ks| == |es| && forall i :: 0 <= i < |es| ==> ks[i] == es[i].key
  {
    if es == [] then [] else [es[0].key] + EntryKeys(es[1..])
  }

  /** The object built from pairs holds, under each key, the value of the last pair with that key. */
  lemma {:induction false} FromPairsLookup(es: seq<Entry>, k: string)
    ensures Lookup(FromPairs(es), k) == LastValue(es, k)
  {
    if es != [] {
      FromPairsLookup(es[..|es| - 1], k);
      AssignLookup(FromPairs(es[..|es| - 1]), es[|es| - 1].key, es[|es| - 1].value, k);
    }
  }

  /** Its keys are the pairs' keys, each once, in order of first appearance. */
  lemma {:induction false} FromPairsKeys(es: seq<Entry>)
    ensures Keys(FromPairs(es)) == FirstOccurrences(EntryKeys(es))
  {
    if es != [] {
      var init := es[..|es| - 1];
      FromPairsKeys(init);
      AssignKeys(FromPairs(init), es[|es| - 1].key, es[|es| - 1].value);
      assert EntryKeys(es)[..|es| - 1] == EntryKeys(init);
    }
  }

  // ---------------------------------------------------------------------
  // `_to_colon_sep`

  /** `join(sep)` of an array of strings with the separator `"\n"`. */
  function JoinLines(ls: seq<string>): (r: string)
    ensures ls == [] ==> r == []
  {
    if ls == [] then [] else if |ls| == 1 then ls[0] else ls[0] + "\n" + JoinLines(ls[1..])
  }

  /** `s.split("\n")`: always at least one piece. */
  function Lines(s: string): (r: seq<string>)
    ensures |r| >= 1
  {
    if s == [] then [[]]
    else
      var rest := Lines(s[1..]);
      if s[0] == '\n' then [[]] + rest else [[s[0]] + rest[0]] + rest[1..]
  }

  /** One line per property: the key, `": "`, the value. */
  function FieldLines(obj: seq<Field>): (ls: seq<string>)
    ensures |ls| == |obj|
    ensures forall i :: 0 <= i < |obj| ==> ls[i] == obj[i].key + ": " + obj[i].value
  {
    if obj == [] then [] else [obj[0].key + ": " + obj[0].value] + FieldLines(obj[1..])
  }

  /** `_to_colon_sep`: the property lines joined by newlines, no trailing newline; empty for no properties. */
  function ToColonSep(obj: seq<Field>): (r: string)
    ensures r == [] <==> obj == []
  {
    var ls := FieldLines(obj);
    if obj == [] then JoinLines(ls)
    else
      JoinNonEmpty(ls);
      JoinLines(ls)
  }

  lemma {:induction false} JoinNonEmpty(ls: seq<string>)
    requires ls != [] && ls[0] != []
    ensures JoinLines(ls) != []
  {
    if |ls| > 1 {
      assert JoinLines(ls)[0] == ls[0][0];
    }
  }

  /** Reading one line back: the key runs to the first colon, the value starts after `": "`. */
  function ParseLine(line: string): (f: Field)
  {
    if line == [] then Field("", "")
    else if line[0] == ':' then Field("", if |line| >= 2 && line[1] == ' ' then line[2..] else line[1..])
    else
      var f := ParseLine(line[1..]);
      Field([line[0]] + f.key, f.value)
  }

  /** Reading a `key: value` text back into properties. */
  function ParseColonSep(text: string): (obj: seq<Field>)
  {
    if text == [] then [] else ParseLines(Lines(text))
  }

  function ParseLines(ls: seq<string>): (obj: seq<Field>)
    ensures |obj| == |ls|
  {
    if ls == [] then [] else [ParseLine(ls[0])] + ParseLines(ls[1..])
  }

  /** A property whose key has no colon and which spans one line. */
  /** A property whose line holds no newline. */
  predicate SingleLine(f: Field) {
    '\n' !in f.key && '\n' !in f.value
  }

  /** A property that can be read back from its line: single-line, and no colon in the key. */
  predicate Printable(f: Field) {
    ':' !in f.key && SingleLine(f)
  }

  lemma {:induction false} ParseLineOf(k: string, v: string)
    requires ':' !in k
    ensures ParseLine(k + ": " + v) == Field(k, v)
  {
    if k != [] {
      ParseLineOf(k[1..], v);
      assert (k + ": " + v)[1..] == k[1..] + ": " + v;
    } else {
      assert k + ": " + v == [':', ' '] + v;
    }
  }

  lemma {:induction false} LinesOfLine(a: string)
    requires '\n' !in a
    ensures Lines(a) == [a]
  {
    if a != [] {
      LinesOfLine(a[1..]);
      assert a == [a[0]] + a[1..];
    }
  }

  lemma {:induction false} LinesOfJoin(a: string, b: string)
    requires '\n' !in a
    ensures Lines(a + "\n" + b) == [a] + Lines(b)
  {
    if a == [] {
      assert a + "\n" + b == ['\n'] + b;
      assert (['\n'] + b)[1..] == b;
    } else {
      LinesOfJoin(a[1..], b);
      assert (a + "\n" + b)[1..] == a[1..] + "\n" + b;
      assert a == [a[0]] + a[1..];
    }
  }

  /** Splitting the joined lines gives the lines back. */
  lemma {:induction false} LinesJoinLines(ls: seq<string>)
    requires ls != []
    requires forall i :: 0 <= i < |ls| ==> '\n' !in ls[i]
    ensures Lines(JoinLines(ls)) == ls
  {
    if |ls| == 1 {
      LinesOfLine(ls[0]);
    } else {
      LinesJoinLines(ls[1..]);
      LinesOfJoin(ls[0], JoinLines(ls[1..]));
    }
  }

  lemma FieldLineSingle(f: Field)
    requires SingleLine(f)
    ensures '\n' !in f.key + ": " + f.value
  {
  }

  /** The text has exactly one line per property, each `key: value`. */
  lemma ColonSepLines(obj: seq<Field>)
    requires obj != []
    requires forall i :: 0 <= i < |obj| ==> SingleLine(obj[i])
    ensures Lines(ToColonSep(obj)) == FieldLines(obj)
  {
    var ls := FieldLines(obj);
    forall i | 0 <= i < |ls| ensures '\n' !in ls[i] {
      FieldLineSingle(obj[i]);
    }
    LinesJoinLines(ls);
  }

  /** Properties with printable keys and values survive `_to_colon_sep` and reading back. */
  lemma ColonSepRoundTrip(obj: seq<Field>)
    requires forall i :: 0 <= i < |obj| ==> Printable(obj[i])
    ensures ParseColonSep(ToColonSep(obj)) == obj
  {
    if obj != [] {
      ColonSepLines(obj);
      ParseFieldLines(obj);
    }
  }

  lemma {:induction false} ParseFieldLines(obj: seq<Field>)
    requires forall i :: 0 <= i < |obj| ==> Printable(obj[i])
    ensures ParseLines(FieldLines(obj)) == obj
  {
    if obj != [] {
      assert Printable(obj[0]);
      ParseLineOf(obj[0].key, obj[0].value);
      ParseFieldLines(obj[1..]);
      assert FieldLines(obj)[1..] == FieldLines(obj[1..]);
    }
  }

  // ---------------------------------------------------------------------
  // The service key

  /** A character matched by the regular-expression class `\s`. */
  predicate IsSpace(c: char) {
    c == ' ' || c == '\t' || c == '\n' || c == '\r' || c == '\U{000B}' || c == '\U{000C}'
    || c == '\U{00A0}' || c == '\U{1680}' || ('\U{2000}' <= c <= '\U{200A}')
    || c == '\U{2028}' || c == '\U{2029}' || c == '\U{202F}' || c == '\U{205F}'
    || c == '\U{3000}' || c == '\U{FEFF}'
  }

  predicate IsUpper(c: char) {
    'A' <= c <= 'Z'
  }

  function ToLower(c: char): (d: char)
    ensures !IsUpper(d)
    ensures IsSpace(d) <==> IsSpace(c)
  {
    if IsUpper(c) then (c as int + 32) as char else c
  }

  /** Text that can be a service key: no whitespace and no upper-case letter. */
  predicate IsKeyText(s: string) {
    forall i :: 0 <= i < |s| ==> !IsSpace(s[i]) && !IsUpper(s[i])
  }

  predicate StartsWithSpace(s: string) {
    s != [] && IsSpace(s[0])
  }

  /** `s` without its leading run of whitespace. */
  function SkipSpaces(s: string): (r: string)
    ensures |r| <= |s| && !StartsWithSpace(r)
    ensures StartsWithSpace(s) ==> |r| < |s|
  {
    if s != [] && IsSpace(s[0]) then SkipSpaces(s[1..]) else s
  }

  /** `replace(/\s+/g, "_")`: each maximal run of whitespace becomes one underscore. */
  function CollapseSpaces(s: string): (r: string)
    ensures forall i :: 0 <= i < |r| ==> !IsSpace(r[i])
    decreases |s|
  {
    if s == [] then []
    else if IsSpace(s[0]) then "_" + CollapseSpaces(SkipSpaces(s))
    else [s[0]] + CollapseSpaces(s[1..])
  }

  /** `toLowerCase`, on the letters A to Z. */
  function LowerCase(s: string): (r: string)
    ensures |r| == |s| && forall i :: 0 <= i < |s| ==> r[i] == ToLower(s[i])
  {
    if s == [] then [] else [ToLower(s[0])] + LowerCase(s[1..])
  }

  /** The service key: whitespace runs to `_`, then lower case. */
  function NameKey(name: string): (r: string)
    ensures IsKeyText(r)
  {
    LowerCase(CollapseSpaces(name))
  }

  lemma {:induction false} CollapseKeepsText(s: string)
    requires forall i :: 0 <= i < |s| ==> !IsSpace(s[i])
    ensures CollapseSpaces(s) == s
  {
    if s != [] {
      CollapseKeepsText(s[1..]);
      assert s == [s[0]] + s[1..];
    }
  }

  /** A run of whitespace, however long, between two non-space parts becomes one underscore. */
  lemma {:induction false} CollapseRun(w: string, rest: string)
    requires w != [] && forall i :: 0 <= i < |w| ==> IsSpace(w[i])
    requires !StartsWithSpace(rest)
    ensures CollapseSpaces(w + rest) == "_" + CollapseSpaces(rest)
  {
    SkipRun(w, rest);
  }

  lemma {:induction false} SkipRun(w: string, rest: string)
    requires forall i :: 0 <= i < |w| ==> IsSpace(w[i])
    requires !StartsWithSpace(rest)
    ensures SkipSpaces(w + rest) == rest
  {
    if w != [] {
      SkipRun(w[1..], rest);
      assert (w + rest)[1..] == w[1..] + rest;
    }
  }

  /** The key is unchanged by the derivation exactly when it already is key text. */
  lemma NameKeyFixedPoints(s: string)
    ensures NameKey(s) == s <==> IsKeyText(s)
  {
    if IsKeyText(s) {
      CollapseKeepsText(s);
      assert LowerCase(s) == s;
    }
  }

  /** Deriving the key of a key changes nothing. */
  lemma NameKeyIdempotent(s: string)
    ensures NameKey(NameKey(s)) == NameKey(s)
  {
    NameKeyFixedPoints(NameKey(s));
  }

  // ---------------------------------------------------------------------
  // The `.parameters` object and the interactions

  /** The `.parameters` file: the service parameters' pairs as `key: value` lines. */
  function ParametersFile(parameters: seq<Entry>): (text: string)
    ensures text == [] <==> parameters == []
  {
    var obj := FromPairs(parameters);
    if parameters == [] then ToColonSep(obj)
    else
      FromPairsLookup(parameters, parameters[0].key);
      ToColonSep(obj)
  }

  /** Reading the `.parameters` file back gives, for each key, the value of its last pair. */
  lemma ParametersFileLookup(parameters: seq<Entry>, k: string)
    requires forall i :: 0 <= i < |parameters| ==> Printable(Field(parameters[i].key, parameters[i].value))
    ensures Lookup(ParseColonSep(ParametersFile(parameters)), k) == LastValue(parameters, k)
  {
    var obj := FromPairs(parameters);
    forall i | 0 <= i < |obj| ensures Printable(obj[i]) {
      LookupAt(obj, i);
      FromPairsPrintable(parameters, obj[i].key);
    }
    ColonSepRoundTrip(obj);
    FromPairsLookup(parameters, k);
  }

  lemma FromPairsPrintable(es: seq<Entry>, k: string)
    requires forall i :: 0 <= i < |es| ==> Printable(Field(es[i].key, es[i].value))
    requires k in Keys(FromPairs(es))
    ensures Printable(Field(k, Lookup(FromPairs(es), k).value))
  {
    FromPairsLookup(es, k);
    var i :| 0 <= i < |es| && es[i].key == k && es[i].value == LastValue(es, k).value;
    assert Printable(Field(es[i].key, es[i].value));
  }

  /** An interaction's parameters: the list the editor sends, or the object it is rewritten to. */
  datatype InteractionParameters = Listed(entries: seq<Entry>) | Keyed(fields: seq<Field>)

  /** An interaction of the service description, whose `parameters` is rewritten in place. */
  class Interaction {
    var parameters: InteractionParameters

    constructor (entries: seq<Entry>)
      ensures parameters == Listed(entries)
    {
      parameters := Listed(entries);
    }
  }

  /** Each interaction's parameter list becomes the object `R.fromPairs` builds from it. */
  method NormalizeInteractions(interactions: seq<Interaction>)
    requires forall i :: 0 <= i < |interactions| ==> interactions[i].parameters.Listed?
    requires forall i, j :: 0 <= i < j < |interactions| ==> interactions[i] != interactions[j]
    modifies set x | x in interactions
    ensures forall i :: 0 <= i < |interactions| ==>
      interactions[i].parameters == Keyed(FromPairs(old(interactions[i].parameters).entries))
  {
    for n := 0 to |interactions|
      invariant forall i :: 0 <= i < n ==>
        interactions[i].parameters == Keyed(FromPairs(old(interactions[i].parameters).entries))
      invariant forall i :: n <= i < |interactions| ==> interactions[i].parameters == old(interactions[i].parameters)
    {
      var x := interactions[n];
      x.parameters := Keyed(FromPairs(x.parameters.entries));
    }
  }

  // ---------------------------------------------------------------------
  // The `.service` record

  /** The value under `k`, a missing one rendering as empty text. */
  function ValueOf(obj: seq<Field>, k: string): string {
    var v := Lookup(obj, k);
    if v.Some? then v.value else ""
  }

  /** `R.pickAll`: each name, in the order given, with its value. */
  function PickAll(names: seq<string>, obj: seq<Field>): (r: seq<Field>)
    ensures |r| == |names| && forall i :: 0 <= i < |names| ==> r[i] == Field(names[i], ValueOf(obj, names[i]))
  {
    if names == [] then [] else [Field(names[0], ValueOf(obj, names[0]))] + PickAll(names[1..], obj)
  }

  const RecordFields: seq<string> := ["name", "description", "author", "priority", "interactions", "parameters"]

  lemma PickRecordFields(meta: seq<Field>)
    ensures PickAll(RecordFields, meta) ==
      [Field("name", ValueOf(meta, "name")), Field("description", ValueOf(meta, "description")),
       Field("author", ValueOf(meta, "author")), Field("priority", ValueOf(meta, "priority")),
       Field("interactions", ValueOf(meta, "interactions")), Field("parameters", ValueOf(meta, "parameters"))]
  {
  }

  /**
   * The `.service` record: the picked fields, then the launcher type, then
   * the launcher file; `interactions` and `parameters` keep their picked
   * places but now name the key's files.
   */
  method ServiceRecord(meta: seq<Field>, launcherType: string, nameKey: string) returns (kv: seq<Field>)
    ensures kv == [Field("name", ValueOf(meta, "name")), Field("description", ValueOf(meta, "description")),
                   Field("author", ValueOf(meta, "author")), Field("priority", ValueOf(meta, "priority")),
                   Field("interactions", nameKey + ".interactions"), Field("parameters", nameKey + ".parameters"),
                   Field("launcher_type", launcherType), Field("launcher", nameKey + ".launcher")]
  {
    kv := PickAll(RecordFields, meta);
    kv := Assign(kv, "launcher_type", launcherType);
    kv := Assign(kv, "launcher", nameKey + ".launcher");
    LauncherFieldsAppended(meta, launcherType, nameKey);
    kv := Assign(kv, "interactions", nameKey + ".interactions");
    kv := Assign(kv, "parameters", nameKey + ".parameters");
    FileFieldsReplaced(meta, launcherType, nameKey);
  }

  /** The two launcher fields are new, so they go after the six picked ones. */
  lemma LauncherFieldsAppended(meta: seq<Field>, launcherType: string, nameKey: string)
    ensures Assign(Assign(PickAll(RecordFields, meta), "launcher_type", launcherType), "launcher", nameKey + ".launcher") ==
      [Field("name", ValueOf(meta, "name")), Field("description", ValueOf(meta, "description")),
       Field("author", ValueOf(meta, "author")), Field("priority", ValueOf(meta, "priority")),
       Field("interactions", ValueOf(meta, "interactions")), Field("parameters", ValueOf(meta, "parameters")),
       Field("launcher_type", launcherType), Field("launcher", nameKey + ".launcher")]
  {
    var picked := PickAll(RecordFields, meta);
    PickRecordFields(meta);
    AssignNew(picked, "launcher_type", launcherType);
    var withType := picked + [Field("launcher_type", launcherType)];
    AssignNew(withType, "launcher", nameKey + ".launcher");
  }

  /** `interactions` and `parameters` already exist, so they take their new values in place. */
  lemma FileFieldsReplaced(meta: seq<Field>, launcherType: string, nameKey: string)
    ensures var kv := [Field("name", ValueOf(meta, "name")), Field("description", ValueOf(meta, "description")),
                       Field("author", ValueOf(meta, "author")), Field("priority", ValueOf(meta, "priority")),
                       Field("interactions", ValueOf(meta, "interactions")), Field("parameters", ValueOf(meta, "parameters")),
                       Field("launcher_type", launcherType), Field("launcher", nameKey + ".launcher")];
      Assign(Assign(kv, "interactions", nameKey + ".interactions"), "parameters", nameKey + ".parameters") ==
      [Field("name", ValueOf(meta, "name")), Field("description", ValueOf(meta, "description")),
       Field("author", ValueOf(meta, "author")), Field("priority", ValueOf(meta, "priority")),
       Field("interactions", nameKey + ".interactions"), Field("parameters", nameKey + ".parameters"),
       Field("launcher_type", launcherType), Field("launcher", nameKey + ".launcher")]
  {
    var name, description := Field("name", ValueOf(meta, "name")), Field("description", ValueOf(meta, "description"));
    var author, priority := Field("author", ValueOf(meta, "author")), Field("priority", ValueOf(meta, "priority"));
    var launcherTypeField := Field("launcher_type", launcherType);
    var launcher := Field("launcher", nameKey + ".launcher");
    var kv := [name, description, author, priority,
               Field("interactions", ValueOf(meta, "interactions")), Field("parameters", ValueOf(meta, "parameters")),
               launcherTypeField, launcher];
    AssignExisting(kv, 4, nameKey + ".interactions");
    var kv' := Assign(kv, "interactions", nameKey + ".interactions");
    assert kv' == [name, description, author, priority,
                   Field("interactions", nameKey + ".interactions"), Field("parameters", ValueOf(meta, "parameters")),
                   launcherTypeField, launcher];
    AssignExisting(kv', 5, nameKey + ".parameters");
  }

  // ---------------------------------------------------------------------
  // Output paths

  /** Index of the last `/` in `p`, if any. */
  function LastSlash(p: string): (r: Option<nat>)
    ensures r.Some? ==> r.value < |p| && p[r.value] == '/' && forall i :: r.value < i < |p| ==> p[i] != '/'
    ensures r.None? ==> '/' !in p
  {
    if p == [] then None
    else if p[|p| - 1] == '/' then Some(|p| - 1)
    else
      var r := LastSlash(p[..|p| - 1]);
      assert forall i :: 0 <= i < |p| - 1 ==> p[..|p| - 1][i] == p[i];
      r
  }

  /** `Path.dirname` of a file path: everything before the last `/`; `.` with none, `/` at the root. */
  function Dirname(p: string): (d: string)
    ensures d != []
  {
    match LastSlash(p)
    case None => "."
    case Some(i) => if i == 0 then "/" else p[..i]
  }

  /** `Path.join(dir, rel)` for a relative `rel` that needs no normalising. */
  function JoinPath(dir: string, rel: string): string {
    if dir == "." then rel else if dir == "/" then dir + rel else dir + "/" + rel
  }

  /** `Path.join("services", key)`: `Path.join` skips empty segments, so an empty key adds nothing. */
  function ServicesDir(nameKey: string): (r: string)
    ensures |r| >= 8 + |nameKey| && r[..8] == "services" && r[|r| - |nameKey|..] == nameKey
  {
    if nameKey == "" then "services" else "services/" + nameKey
  }

  /** The joined path ends with the relative part. */
  lemma JoinPathEndsWith(dir: string, rel: string)
    ensures |rel| <= |JoinPath(dir, rel)| && JoinPath(dir, rel)[|JoinPath(dir, rel)| - |rel|..] == rel
  {
  }

  /** Joining a longer relative path appends the extra part. */
  lemma JoinPathAppend(dir: string, rel: string, suffix: string)
    ensures JoinPath(dir, rel + suffix) == JoinPath(dir, rel) + suffix
  {
    if dir == "/" {
      ConcatAssoc(dir, rel, suffix);
    } else if dir != "." {
      ConcatAssoc(dir + "/", rel, suffix);
    }
  }

  /** The export entry added to package.xml: the `.service` file relative to the package directory. */
  function ExportEntry(nameKey: string): (r: string)
    ensures |r| >= 16 && r[..8] == "services" && r[|r| - 8..] == ".service"
    ensures nameKey != "" ==> r == "services/" + nameKey + "/" + nameKey + ".service"
  {
    ServicesDir(nameKey) + "/" + nameKey + ".service"
  }

  /** The directory holding the service's files. */
  function ServiceBase(packagePath: string, nameKey: string): (r: string)
    ensures |ServicesDir(nameKey)| <= |r| && r[|r| - |ServicesDir(nameKey)|..] == ServicesDir(nameKey)
  {
    JoinPathEndsWith(Dirname(packagePath), ServicesDir(nameKey));
    JoinPath(Dirname(packagePath), ServicesDir(nameKey))
  }

  /** The extensions of the four files, in the order they are written. */
  const OutputExtensions: seq<string> := [".parameters", ".launcher", ".service", ".interactions"]

  /** The four files written, in the order they are written. */
  function OutputFiles(packagePath: string, nameKey: string): (files: seq<string>)
    ensures |files| == 4
  {
    var base := ServiceBase(packagePath, nameKey) + "/" + nameKey;
    [base + ".parameters", base + ".launcher", base + ".service", base + ".interactions"]
  }

  /**
   * Every file lies in `services/<key>` beside package.xml and is named
   * `<key>.<ext>`, and the export entry, taken from the package directory,
   * is the `.service` file written.
   */
  lemma OutputFilesLayout(packagePath: string, nameKey: string)
    ensures var files := OutputFiles(packagePath, nameKey);
      var base := ServiceBase(packagePath, nameKey);
      && files[2] == JoinPath(Dirname(packagePath), ExportEntry(nameKey))
      && (forall i :: 0 <= i < 4 ==> files[i][..|base| + 1 + |nameKey|] == base + "/" + nameKey)
      && (forall i :: 0 <= i < 4 ==> files[i] == base + "/" + nameKey + OutputExtensions[i])
  {
    var d := Dirname(packagePath);
    var base := ServiceBase(packagePath, nameKey);
    var files := OutputFiles(packagePath, nameKey);
    var exts := OutputExtensions;
    var dir := ServicesDir(nameKey);
    JoinPathAppend(d, dir, "/");
    JoinPathAppend(d, dir + "/", nameKey);
    JoinPathAppend(d, dir + "/" + nameKey, ".service");
    forall i | 0 <= i < 4 ensures files[i][..|base| + 1 + |nameKey|] == base + "/" + nameKey {
      assert files[i] == (base + "/" + nameKey) + exts[i];
    }
  }

  /** The four file names differ from one another. */
  lemma OutputFilesDistinct(packagePath: string, nameKey: string)
    ensures var files := OutputFiles(packagePath, nameKey);
      forall i, j :: 0 <= i < j < 4 ==> files[i] != files[j]
  {
    var files := OutputFiles(packagePath, nameKey);
    var stem := ServiceBase(packagePath, nameKey) + "/" + nameKey;
    var exts := [".parameters", ".launcher", ".service", ".interactions"];
    forall i, j | 0 <= i < j < 4 ensures files[i] != files[j] {
      assert files[i] == stem + exts[i] && files[j] == stem + exts[j];
      assert files[i][|stem| + 1] == exts[i][1] && files[j][|stem| + 1] == exts[j][1];
      assert files[i][|stem| + 2] == exts[i][2] && files[j][|stem| + 2] == exts[j][2];
    }
  }
}
