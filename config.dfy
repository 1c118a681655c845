/** Configuration handling of the worker: translating a dprint
    configuration object into yapf's vocabulary, merging the global,
    plugin and per-request configurations, and rendering the result as the
    style text handed to the formatter. A configuration is a Python dict,
    which remembers the order in which its keys were first inserted. */
module Config {
  import opened Wrappers

  /** A configuration value as `str()` renders it; JSON `null` is Python's
      `None`. */
  datatype Value = Null | Scalar(rendered: string)

  /** An insertion-ordered dictionary: `order` lists the keys in the order
      they were first inserted, `values` maps each key to its value. */
  datatype Dict = Dict(order: seq<string>, values: map<string, Value>) {

    /** Every key is listed once, and exactly the keys are listed. */
    predicate Valid()
    {
      && (forall i, j :: 0 <= i < j < |order| ==> order[i] != order[j])
      && (forall i :: 0 <= i < |order| ==> order[i] in values)
      && (forall k :: k in values ==> k in order)
    }
  }

  const Empty: Dict := Dict([], map[])

  /** A value `json.loads` can return: an object (its members in order),
      a string, an array, or a number, boolean or null. */
  datatype Json = Object(fields: Dict) | Text(chars: string) | Array(items: seq<Json>) | Atom
  {
    /** An object's dictionary is well formed. */
    predicate Valid()
    {
      Object? ==> fields.Valid()
    }
  }

  /** `d[k]` for a key of `d`. */
  function Get(d: Dict, k: string): Value
  {
    if k in d.values then d.values[k] else Null
  }

  /** `d[k] = v`: a new key goes to the end, an existing key keeps its
      place and takes the new value. */
  function Assign(d: Dict, k: string, v: Value): Dict
  {
    Dict(if k in d.values then d.order else d.order + [k], d.values[k := v])
  }

  /** Assignment keeps a dictionary well formed. */
  lemma AssignValid(d: Dict, k: string, v: Value)
    requires d.Valid()
    ensures Assign(d, k, v).Valid()
  {
  }

  function LowerChar(c: char): char
  {
    if 'A' <= c <= 'Z' then (c as int - 'A' as int + 'a' as int) as char else c
  }

  /** `str.lower()` on the ASCII letters. */
  function Lower(s: string): (r: string)
    ensures |r| == |s|
  {
    if s == [] then [] else [LowerChar(s[0])] + Lower(s[1..])
  }

  predicate IsLowerCase(s: string)
  {
    forall i :: 0 <= i < |s| ==> !('A' <= s[i] <= 'Z')
  }

  /** The key under which `get_dprint_to_yapf_config` stores the entry
      (key, v), or None when it drops it. */
  function Target(key: string, v: Value): Option<string>
  {
    if key == "lineWidth" then (if v.Null? then None else Some("column_limit"))
    else if key == "indentWidth" then (if v.Null? then None else Some("indent_width"))
    else if key == "useTabs" then (if v.Null? then None else Some("use_tabs"))
    else if key == "newLineKind" then None
    else Some(Lower(key))
  }

  /** The target of the i-th entry of `c`. */
  function TargetAt(c: Dict, i: nat): Option<string>
    requires i < |c.order|
  {
    Target(c.order[i], Get(c, c.order[i]))
  }

  /** The translation of the first n entries of `config`, each stored in
      turn under its target key. */
  function TranslatedUpTo(config: Dict, n: nat): Dict
    requires n <= |config.order|
  {
    if n == 0 then Empty
    else
      var d := TranslatedUpTo(config, n - 1);
      var key := config.order[n - 1];
      match Target(key, Get(config, key))
      case None => d
      case Some(t) => Assign(d, t, Get(config, key))
  }

  function Translated(config: Dict): Dict
  {
    TranslatedUpTo(config, |config.order|)
  }

  lemma {:induction false} TranslatedUpToValid(config: Dict, n: nat)
    requires n <= |config.order|
    ensures TranslatedUpTo(config, n).Valid()
  {
    if n > 0 {
      TranslatedUpToValid(config, n - 1);
      var key := config.order[n - 1];
      if Target(key, Get(config, key)).Some? {
        AssignValid(TranslatedUpTo(config, n - 1), Target(key, Get(config, key)).value, Get(config, key));
      }
    }
  }

  /** The translation is a well-formed dictionary. */
  lemma TranslatedValid(config: Dict)
    ensures Translated(config).Valid()
  {
    TranslatedUpToValid(config, |config.order|);
  }

  /** The loop of `get_dprint_to_yapf_config` over the keys of an
      object. */
  method TranslateEntries(config: Dict) returns (final: Dict)
    requires config.Valid()
    ensures final == Translated(config)
  {
    final := Empty;
    for i := 0 to |config.order|
      invariant final == TranslatedUpTo(config, i)
    {
      var key := config.order[i];
      var value := config.values[key];
      assert value == Get(config, key);
      if key == "lineWidth" {
        if !value.Null? {
          final := Assign(final, "column_limit", value);
        }
      } else if key == "indentWidth" {
        if !value.Null? {
          final := Assign(final, "indent_width", value);
        }
      } else if key == "useTabs" {
        if !value.Null? {
          final := Assign(final, "use_tabs", value);
        }
      } else if key == "newLineKind" {
        // yapf has no such option
      } else {
        final := Assign(final, Lower(key), value);
      }
    }
  }

  /** The one key that iterating over an array may yield without
      raising: its branch does nothing. */
  const NewLineKind: Json := Text("newLineKind")

  /** `get_dprint_to_yapf_config` on any JSON value, or `None` when it
      raises. An object is translated entry by entry. Iterating over a
      string yields one-character keys, and over an array its elements:
      every such key reaches `config[key]` or `key.lower()`, which raise
      on a string or a list, except `newLineKind`, whose branch does
      nothing. A number, a boolean or null cannot be iterated. */
  function Translation(config: Json): Option<Dict>
  {
    match config
    case Object(d) => Some(Translated(d))
    case Text(chars) => if chars == [] then Some(Empty) else None
    case Array(items) =>
      if forall i :: 0 <= i < |items| ==> items[i] == NewLineKind then Some(Empty) else None
    case Atom => None
  }

  /** `get_dprint_to_yapf_config`. */
  method DprintToYapf(config: Json) returns (final: Option<Dict>)
    requires config.Valid()
    ensures final == Translation(config)
  {
    match config
    case Object(d) =>
      var entries := TranslateEntries(d);
      final := Some(entries);
    case Text(chars) =>
      // the first key, a one-character string, cannot index a string
      final := if chars == [] then Some(Empty) else None;
    case Array(items) =>
      for i := 0 to |items|
        invariant forall j :: 0 <= j < i ==> items[j] == NewLineKind
      {
        if items[i] != NewLineKind {
          return None;
        }
      }
      final := Some(Empty);
    case Atom =>
      final := None;
  }

  /** Only an object contributes entries: translating any other JSON
      value raises, or yields nothing when every key it yields is
      `newLineKind`, as for an empty string or an empty array. Whatever
      is translated is a well-formed dictionary. */
  lemma TranslationOf(config: Json)
    ensures config.Object? ==> Translation(config) == Some(Translated(config.fields))
    ensures !config.Object? && Translation(config).Some? ==> Translation(config).value == Empty
    ensures config.Text? ==> (Translation(config).Some? <==> config.chars == [])
    ensures config.Array? ==>
      (Translation(config).Some? <==> forall i :: 0 <= i < |config.items| ==> config.items[i] == NewLineKind)
    ensures config.Atom? ==> Translation(config) == None
    ensures Translation(config).Some? ==> Translation(config).value.Valid()
  {
    if config.Object? {
      TranslatedValid(config.fields);
    }
  }

  lemma {:induction false} TranslatedUpToKeys(c: Dict, n: nat, t: string)
    requires n <= |c.order|
    ensures t in TranslatedUpTo(c, n).values <==> exists i :: 0 <= i < n && TargetAt(c, i) == Some(t)
  {
    if n > 0 {
      TranslatedUpToKeys(c, n - 1, t);
      if TargetAt(c, n - 1) == Some(t) {
        assert t in TranslatedUpTo(c, n).values;
      }
    }
  }

  /** A key is in the translation exactly when some entry of the input
      is stored under it: renamed, lower-cased, and never for a dropped
      entry (a null line width, indent width or tab setting, or any
      newLineKind). */
  lemma TranslatedKeys(c: Dict, t: string)
    ensures t in Translated(c).values <==> exists i :: 0 <= i < |c.order| && TargetAt(c, i) == Some(t)
  {
    TranslatedUpToKeys(c, |c.order|, t);
  }

  lemma {:induction false} TranslatedUpToValue(c: Dict, n: nat, i: nat, t: string)
    requires i < n <= |c.order|
    requires TargetAt(c, i) == Some(t)
    requires forall j :: i < j < n ==> TargetAt(c, j) != Some(t)
    ensures t in TranslatedUpTo(c, n).values
    ensures TranslatedUpTo(c, n).values[t] == Get(c, c.order[i])
  {
    if i < n - 1 {
      TranslatedUpToValue(c, n - 1, i, t);
      assert TargetAt(c, n - 1) != Some(t);
    }
  }

  /** The value stored under a key is the value of the last entry that
      targets it, unchanged: `lineWidth` becomes `column_limit`,
      `indentWidth` `indent_width`, `useTabs` `use_tabs`, and every other
      kept key its lower-cased self, all with their values as given. */
  lemma TranslatedValue(c: Dict, i: nat, t: string)
    requires i < |c.order|
    requires TargetAt(c, i) == Some(t)
    requires forall j :: i < j < |c.order| ==> TargetAt(c, j) != Some(t)
    ensures t in Translated(c).values && Translated(c).values[t] == Get(c, c.order[i])
  {
    TranslatedUpToValue(c, |c.order|, i, t);
  }

  /** Entry i is the first of `c` stored under `t`. */
  predicate FirstTarget(c: Dict, i: nat, t: string)
  {
    i < |c.order| && TargetAt(c, i) == Some(t) && forall j :: 0 <= j < i ==> TargetAt(c, j) != Some(t)
  }

  lemma {:induction false} TranslatedUpToOrder(c: Dict, n: nat)
    requires n <= |c.order|
    ensures var o := TranslatedUpTo(c, n).order;
      forall p, i: nat :: 0 <= p < |o| && FirstTarget(c, i, o[p]) ==> i < n
    ensures var o := TranslatedUpTo(c, n).order;
      forall p, q, i: nat, j: nat :: 0 <= p < q < |o| && FirstTarget(c, i, o[p]) && FirstTarget(c, j, o[q]) ==> i < j
  {
    if n > 0 {
      TranslatedUpToOrder(c, n - 1);
      TranslatedUpToValid(c, n - 1);
      var d := TranslatedUpTo(c, n - 1);
      var o := TranslatedUpTo(c, n).order;
      var key := c.order[n - 1];
      assert TargetAt(c, n - 1) == Target(key, Get(c, key));
      if TargetAt(c, n - 1).Some? && TargetAt(c, n - 1).value !in d.values {
        var t := TargetAt(c, n - 1).value;
        assert o == d.order + [t];
        TranslatedUpToKeys(c, n - 1, t);
        forall j: nat | FirstTarget(c, j, t)
          ensures j == n - 1
        {
          assert !(j < n - 1);
          assert !(n - 1 < j);
        }
        forall p, i: nat | 0 <= p < |o| && FirstTarget(c, i, o[p])
          ensures i < n
        {
          if p < |d.order| {
            assert o[p] == d.order[p];
          }
        }
        forall p, q, i: nat, j: nat | 0 <= p < q < |o| && FirstTarget(c, i, o[p]) && FirstTarget(c, j, o[q])
          ensures i < j
        {
          assert o[p] == d.order[p];
          if q < |d.order| {
            assert o[q] == d.order[q];
          }
        }
      } else {
        assert o == d.order;
        forall p, i: nat | 0 <= p < |o| && FirstTarget(c, i, o[p])
          ensures i < n
        {
          assert o[p] == d.order[p];
        }
      }
    }
  }

  /** The translation lists each key once, exactly the keys some entry is
      stored under, and in the order of the first entry stored under each,
      as a Python dict keeps the place of a key's first insertion: "Foo"
      then "foo" leave "foo" where "Foo" put it. */
  lemma TranslatedOrder(c: Dict, t: string)
    ensures var o := Translated(c).order; forall p, q :: 0 <= p < q < |o| ==> o[p] != o[q]
    ensures t in Translated(c).order <==> exists i :: 0 <= i < |c.order| && TargetAt(c, i) == Some(t)
    ensures var o := Translated(c).order;
      forall p, q, i: nat, j: nat :: 0 <= p < q < |o| && FirstTarget(c, i, o[p]) && FirstTarget(c, j, o[q]) ==> i < j
  {
    TranslatedValid(c);
    TranslatedKeys(c, t);
    TranslatedUpToOrder(c, |c.order|);
    assert Translated(c) == TranslatedUpTo(c, |c.order|);
  }

  lemma {:induction false} LowerIsLowerCase(s: string)
    ensures IsLowerCase(Lower(s))
  {
    if s != [] {
      LowerIsLowerCase(s[1..]);
      assert forall i :: 0 < i < |s| ==> Lower(s)[i] == Lower(s[1..])[i - 1];
    }
  }

  /** Every translated key is one of yapf's three renamed options or a
      lower-case key, so no `newLineKind`, `lineWidth`, `indentWidth` or
      `useTabs` key survives the translation. */
  lemma TranslatedLowerCase(c: Dict, t: string)
    requires t in Translated(c).values
    ensures t == "column_limit" || t == "indent_width" || t == "use_tabs" || IsLowerCase(t)
    ensures t != "newLineKind" && t != "lineWidth" && t != "indentWidth" && t != "useTabs"
  {
    TranslatedKeys(c, t);
    var i :| 0 <= i < |c.order| && TargetAt(c, i) == Some(t);
    var key := c.order[i];
    if t == Lower(key) {
      LowerIsLowerCase(key);
      NotCamelCase(t);
    }
  }

  /** The four camel-case dprint keys each have an upper-case letter. */
  lemma NotCamelCase(t: string)
    requires IsLowerCase(t)
    ensures t != "newLineKind" && t != "lineWidth" && t != "indentWidth" && t != "useTabs"
  {
    if |t| == 11 {
      assert t[3] != "newLineKind"[3] && t[6] != "indentWidth"[6];
    } else if |t| == 9 {
      assert t[4] != "lineWidth"[4];
    } else if |t| == 7 {
      assert t[3] != "useTabs"[3];
    }
  }

  /** `dict.update` over the first n entries of `e`. */
  function UpdatedUpTo(d: Dict, e: Dict, n: nat): Dict
    requires n <= |e.order|
  {
    if n == 0 then d else Assign(UpdatedUpTo(d, e, n - 1), e.order[n - 1], Get(e, e.order[n - 1]))
  }

  /** `d.update(e)`. */
  function Updated(d: Dict, e: Dict): Dict
  {
    UpdatedUpTo(d, e, |e.order|)
  }

  /** The entries of the first n keys of `e`, as a map. */
  function PrefixMap(e: Dict, n: nat): map<string, Value>
    requires n <= |e.order|
  {
    map k | k in e.order[..n] :: Get(e, k)
  }

  lemma PrefixMapStep(e: Dict, n: nat)
    requires 0 < n <= |e.order|
    ensures PrefixMap(e, n) == PrefixMap(e, n - 1)[e.order[n - 1] := Get(e, e.order[n - 1])]
  {
    assert e.order[..n] == e.order[..n - 1] + [e.order[n - 1]];
  }

  lemma {:induction false} UpdatedUpToValues(d: Dict, e: Dict, n: nat)
    requires n <= |e.order|
    ensures UpdatedUpTo(d, e, n).values == d.values + PrefixMap(e, n)
  {
    if n == 0 {
      assert PrefixMap(e, 0) == map[];
    } else {
      var k, v := e.order[n - 1], Get(e, e.order[n - 1]);
      calc {
        UpdatedUpTo(d, e, n).values;
        UpdatedUpTo(d, e, n - 1).values[k := v];
        { UpdatedUpToValues(d, e, n - 1);
          AssignSame(UpdatedUpTo(d, e, n - 1).values, d.values + PrefixMap(e, n - 1), k, v); }
        (d.values + PrefixMap(e, n - 1))[k := v];
        { UnionAssign(d.values, PrefixMap(e, n - 1), k, v); }
        d.values + PrefixMap(e, n - 1)[k := v];
        { PrefixMapStep(e, n); }
        d.values + PrefixMap(e, n);
      }
    }
  }

  lemma AssignSame(a: map<string, Value>, b: map<string, Value>, k: string, v: Value)
    requires a == b
    ensures a[k := v] == b[k := v]
  {
  }

  lemma UnionAssign(a: map<string, Value>, b: map<string, Value>, k: string, v: Value)
    ensures (a + b)[k := v] == a + b[k := v]
  {
  }

  /** The keys of `keys` that `m` lacks, in order. */
  function Appended(m: map<string, Value>, keys: seq<string>): seq<string>
  {
    if keys == [] then []
    else Appended(m, keys[..|keys| - 1]) + (if keys[|keys| - 1] in m then [] else [keys[|keys| - 1]])
  }

  lemma AppendedStep(m: map<string, Value>, keys: seq<string>, n: nat)
    requires 0 < n <= |keys|
    ensures Appended(m, keys[..n]) == Appended(m, keys[..n - 1]) + (if keys[n - 1] in m then [] else [keys[n - 1]])
  {
    assert keys[..n][..n - 1] == keys[..n - 1];
  }

  /** A key of a well-formed dictionary is not among the keys before it. */
  lemma NotEarlier(e: Dict, n: nat)
    requires e.Valid() && n < |e.order|
    ensures e.order[n] !in PrefixMap(e, n)
  {
    forall i | 0 <= i < n
      ensures e.order[i] != e.order[n]
    {
    }
    assert forall k :: k in e.order[..n] ==> exists i :: 0 <= i < n && e.order[i] == k;
  }

  lemma UnionLacks(a: map<string, Value>, b: map<string, Value>, k: string)
    requires k !in b
    ensures k in a + b <==> k in a
  {
  }

  lemma OrderStep(first: seq<string>, rest: seq<string>, before: seq<string>, after: seq<string>,
                  k: string, present: bool, added: seq<string>)
    requires before == first + rest
    requires after == if present then before else before + [k]
    requires added == rest + (if present then [] else [k])
    ensures after == first + added
  {
    if !present {
      assert first + rest + [k] == first + (rest + [k]);
    }
  }

  lemma {:induction false} UpdatedUpToOrder(d: Dict, e: Dict, n: nat)
    requires e.Valid() && n <= |e.order|
    ensures UpdatedUpTo(d, e, n).order == d.order + Appended(d.values, e.order[..n])
  {
    if n > 0 {
      var k := e.order[n - 1];
      UpdatedUpToOrder(d, e, n - 1);
      UpdatedUpToValues(d, e, n - 1);
      var u := UpdatedUpTo(d, e, n - 1);
      var rest := Appended(d.values, e.order[..n - 1]);
      assert UpdatedUpTo(d, e, n).order == if k in u.values then u.order else u.order + [k];
      assert u.values == d.values + PrefixMap(e, n - 1);
      NotEarlier(e, n - 1);
      assert k !in PrefixMap(e, n - 1);
      UnionLacks(d.values, PrefixMap(e, n - 1), k);
      assert k in d.values + PrefixMap(e, n - 1) <==> k in d.values;
      assert k in u.values <==> k in d.values;
      AppendedStep(d.values, e.order, n);
      OrderStep(d.order, rest, u.order, UpdatedUpTo(d, e, n).order, k, k in d.values,
                Appended(d.values, e.order[..n]));
    }
  }

  lemma {:induction false} UpdatedUpToValid(d: Dict, e: Dict, n: nat)
    requires d.Valid() && n <= |e.order|
    ensures UpdatedUpTo(d, e, n).Valid()
  {
    if n > 0 {
      var u := UpdatedUpTo(d, e, n - 1);
      var k := e.order[n - 1];
      assert UpdatedUpTo(d, e, n) == Assign(u, k, Get(e, k));
      UpdatedUpToValid(d, e, n - 1);
      AssignValid(u, k, Get(e, k));
    }
  }

  /** After `d.update(e)` every key of `e` has e's value, every other key
      of `d` keeps d's value, no other key appears, the keys of `d` keep
      their places and the keys `d` lacks follow them in e's order. */
  lemma UpdatedValues(d: Dict, e: Dict)
    requires e.Valid()
    ensures Updated(d, e).values == d.values + e.values
    ensures Updated(d, e).order == d.order + Appended(d.values, e.order)
    ensures d.Valid() ==> Updated(d, e).Valid()
  {
    UpdatedUpToValues(d, e, |e.order|);
    assert e.order[..|e.order|] == e.order;
    UpdatedUpToOrder(d, e, |e.order|);
    assert PrefixMap(e, |e.order|) == e.values;
    if d.Valid() {
      UpdatedUpToValid(d, e, |e.order|);
    }
  }

  /** The three translated configurations, each updating the merge of
      those before it. */
  function Merged(g: Dict, p: Dict, a: Dict): Dict
  {
    Updated(Updated(Updated(Empty, g), p), a)
  }

  /** Merging keeps exactly the keys of the three dictionaries, and
      later settings win on a collision. */
  lemma MergedValues(g: Dict, p: Dict, a: Dict)
    requires g.Valid() && p.Valid() && a.Valid()
    ensures Merged(g, p, a).Valid()
    ensures Merged(g, p, a).values == g.values + p.values + a.values
  {
    assert Empty.Valid();
    UpdatedValues(Empty, g);
    var r1 := Updated(Empty, g);
    assert r1.values == g.values;
    UpdatedValues(r1, p);
    var r2 := Updated(r1, p);
    UpdatedValues(r2, a);
  }

  /** The configuration the formatter sees: global, then plugin, then
      per-request settings, each translated first; `None` when the
      translation of one of them raises. */
  function Resolved(global: Json, plugin: Json, additional: Json): Option<Dict>
  {
    var g, p, a := Translation(global), Translation(plugin), Translation(additional);
    if g.Some? && p.Some? && a.Some? then Some(Merged(g.value, p.value, a.value)) else None
  }

  /** The merge exists exactly when all three configurations translate;
      then it keeps exactly their translated keys, later settings win on
      a collision, and the result is a well-formed dictionary. */
  lemma ResolvedValues(global: Json, plugin: Json, additional: Json)
    ensures Resolved(global, plugin, additional).Some? <==>
      Translation(global).Some? && Translation(plugin).Some? && Translation(additional).Some?
    ensures Resolved(global, plugin, additional).Some? ==>
      && Resolved(global, plugin, additional).value.Valid()
      && Resolved(global, plugin, additional).value.values
         == Translation(global).value.values + Translation(plugin).value.values + Translation(additional).value.values
  {
    TranslationOf(global);
    TranslationOf(plugin);
    TranslationOf(additional);
    if Resolved(global, plugin, additional).Some? {
      MergedValues(Translation(global).value, Translation(plugin).value, Translation(additional).value);
    }
  }

  /** `get_resolved_config`: each configuration is translated in turn,
      and merged into the result unless its translation raises. */
  method GetResolvedConfig(global: Json, plugin: Json, additional: Json) returns (resolved: Option<Dict>)
    requires global.Valid() && plugin.Valid() && additional.Valid()
    ensures resolved == Resolved(global, plugin, additional)
    ensures resolved.Some? ==> resolved.value.Valid()
  {
    var merged := Empty;
    var g := DprintToYapf(global);
    if g.None? {
      return None;
    }
    merged := Updated(merged, g.value);
    var p := DprintToYapf(plugin);
    if p.None? {
      return None;
    }
    merged := Updated(merged, p.value);
    var a := DprintToYapf(additional);
    if a.None? {
      return None;
    }
    merged := Updated(merged, a.value);
    ResolvedValues(global, plugin, additional);
    resolved := Some(merged);
  }

  /** Precedence on one key: the per-request value if there is one,
      otherwise the plugin value, otherwise the global value. */
  lemma ResolvedLookup(global: Json, plugin: Json, additional: Json, k: string)
    ensures Resolved(global, plugin, additional).Some? ==>
      var r := Resolved(global, plugin, additional).value.values;
      var g, p, a := Translation(global).value.values, Translation(plugin).value.values, Translation(additional).value.values;
      && (k in r <==> k in g || k in p || k in a)
      && (k in a ==> r[k] == a[k])
      && (k !in a && k in p ==> r[k] == p[k])
      && (k !in a && k !in p && k in g ==> r[k] == g[k])
  {
    ResolvedValues(global, plugin, additional);
  }

  /** `str(value)`. */
  function Render(v: Value): string
  {
    match v
    case Null => "None"
    case Scalar(s) => s
  }

  /** The entry `key: value` for one key of `d`. */
  function Entry(d: Dict, key: string): string
  {
    key + ": " + Render(Get(d, key))
  }

  /** The entries of the first n keys of `d`, in order. */
  function EntriesUpTo(d: Dict, n: nat): (r: seq<string>)
    requires n <= |d.order|
    ensures |r| == n
  {
    if n == 0 then [] else EntriesUpTo(d, n - 1) + [Entry(d, d.order[n - 1])]
  }

  /** The entries `key: value` of `d`, in order. */
  function Entries(d: Dict): (r: seq<string>)
    ensures |r| == |d.order|
  {
    EntriesUpTo(d, |d.order|)
  }

  /** The items joined by ", ". */
  function Joined(items: seq<string>): string
  {
    if |items| == 0 then ""
    else if |items| == 1 then items[0]
    else items[0] + ", " + Joined(items[1..])
  }

  /** The style text: "{", the entries joined by ", ", "}". */
  function StyleText(d: Dict): string
  {
    "{" + Joined(Entries(d)) + "}"
  }

  /** Joining one more item appends a separator (unless it is the first
      item) and the item. */
  lemma {:induction false} JoinedSnoc(items: seq<string>, x: string)
    ensures Joined(items + [x]) == if items == [] then x else Joined(items) + ", " + x
  {
    if |items| == 1 {
      assert items + [x] == [items[0], x];
      assert [items[0], x][1..] == [x];
    } else if |items| > 1 {
      assert (items + [x])[1..] == items[1..] + [x];
      JoinedSnoc(items[1..], x);
    }
  }

  /** `get_style_config_from_config`. */
  method GetStyleConfig(config: Dict) returns (text: string)
    requires config.Valid()
    ensures text == StyleText(config)
  {
    text := "{";
    var i := 0;
    for n := 0 to |config.order|
      invariant i == n
      invariant text == "{" + Joined(EntriesUpTo(config, n))
    {
      ghost var before := text;
      var key := config.order[n];
      if i > 0 {
        text := text + ", ";
      }
      assert config.values[key] == Get(config, key);
      text := text + (key + ": " + Render(config.values[key]));
      i := i + 1;
      StyleStep(before, EntriesUpTo(config, n), Entry(config, key), text);
    }
    text := text + "}";
  }

  /** One entry more in the style text being built. */
  lemma StyleStep(before: string, items: seq<string>, x: string, after: string)
    requires before == "{" + Joined(items)
    requires after == (if |items| > 0 then before + ", " else before) + x
    ensures after == "{" + Joined(items + [x])
  {
    JoinedSnoc(items, x);
    if items == [] {
      assert "{" + Joined(items) == "{";
    }
  }

  /** An empty configuration renders as "{}", a single entry as
      "{key: value}", and every entry of a longer one is followed by ", "
      before the next. */
  lemma StyleTextShapes(d: Dict, x: string)
    ensures StyleText(Empty) == "{}"
    ensures |d.order| == 1 ==> StyleText(d) == "{" + d.order[0] + ": " + Render(Get(d, d.order[0])) + "}"
    ensures Joined(Entries(d) + [x]) == if d.order == [] then x else Joined(Entries(d)) + ", " + x
  {
    JoinedSnoc(Entries(d), x);
  }
}
