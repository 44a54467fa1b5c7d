/** The button registry that `ButtonGroup.initialize` builds from
    `options.buttons` with a `map` / `compact` / `object` chain: falsy entries
    are dropped, a bare function becomes `{handler: f}`, and every descriptor is
    shallow-merged over `{key: k, text: k}`. */
module Registry {
  import opened JsValues

  /** A normalised button descriptor: its own enumerable properties. */
  type Descriptor = map<string, Value>

  /** One registry entry: the key it was declared under and its descriptor. */
  datatype Entry = Entry(key: string, descriptor: Descriptor)

  /** The own enumerable properties `_.extend` copies from a source value:
      those of an object; a primitive contributes none. */
  function OwnProps(v: Value): map<string, Value>
  {
    if v.Obj? then v.props else map[]
  }

  /** The normalisation of one truthy entry `v` declared under `key`. */
  function Normalize(key: string, v: Value): (d: Descriptor)
    ensures v.Func? ==> d == map["key" := Str(key), "text" := Str(key), "handler" := v]
    ensures !v.Func? && !v.Obj? ==> d == map["key" := Str(key), "text" := Str(key)]
    ensures v.Obj? ==> d.Keys == v.props.Keys + {"key", "text"}
    ensures v.Obj? ==> forall p :: p in v.props ==> d[p] == v.props[p]
    ensures d["key"] == (if v.Obj? && "key" in v.props then v.props["key"] else Str(key))
    ensures d["text"] == (if v.Obj? && "text" in v.props then v.props["text"] else Str(key))
  {
    var given := if v.Func? then map["handler" := v] else OwnProps(v);
    map["key" := Str(key), "text" := Str(key)] + given
  }

  /** The registry built from the entries of `options.buttons`, in their
      iteration order. */
  function Build(raw: seq<(string, Value)>): (r: seq<Entry>)
    ensures |r| <= |raw|
    ensures |r| == |raw| <==> forall i :: 0 <= i < |raw| ==> Truthy(raw[i].1)
    ensures forall j :: 0 <= j < |r| ==> "key" in r[j].descriptor && "text" in r[j].descriptor
  {
    if raw == [] then []
    else
      var rest := Build(raw[1..]);
      assert forall i :: 1 <= i < |raw| ==> raw[i] == raw[1..][i - 1];
      if Truthy(raw[0].1) then [Entry(raw[0].0, Normalize(raw[0].0, raw[0].1))] + rest else rest
  }

  /** No key is declared twice (a JavaScript object has unique keys). */
  predicate DistinctRaw(raw: seq<(string, Value)>)
  {
    forall i, j :: 0 <= i < j < |raw| ==> raw[i].0 != raw[j].0
  }

  predicate DistinctKeys(reg: seq<Entry>)
  {
    forall i, j :: 0 <= i < j < |reg| ==> reg[i].key != reg[j].key
  }

  /** `options.buttons[k]`, `None` when the key is not declared. */
  function RawLookup(raw: seq<(string, Value)>, k: string): Option<Value>
  {
    if raw == [] then None
    else if raw[0].0 == k then Some(raw[0].1)
    else RawLookup(raw[1..], k)
  }

  /** `this._buttons[k]`, `None` when the registry has no such entry. */
  function Lookup(reg: seq<Entry>, k: string): (r: Option<Descriptor>)
    ensures r.Some? <==> HasKey(reg, k)
    ensures r.Some? ==> exists i :: 0 <= i < |reg| && reg[i] == Entry(k, r.value)
  {
    if reg == [] then None
    else if reg[0].key == k then Some(reg[0].descriptor)
    else Lookup(reg[1..], k)
  }

  predicate HasKey(reg: seq<Entry>, k: string)
  {
    exists i :: 0 <= i < |reg| && reg[i].key == k
  }

  /** The positions in `raw` of the entries that survive, in order. */
  function Sources(raw: seq<(string, Value)>): seq<nat>
  {
    if raw == [] then []
    else
      var rest := Sources(raw[1..]);
      (if Truthy(raw[0].1) then [0] else []) + Shift(rest)
  }

  /** Every key of the registry was declared in the input. */
  lemma {:induction false} BuildKeysDeclared(raw: seq<(string, Value)>, k: string)
    requires HasKey(Build(raw), k)
    ensures RawLookup(raw, k).Some?
  {
    if raw != [] && raw[0].0 != k {
      var reg := Build(raw);
      var i :| 0 <= i < |reg| && reg[i].key == k;
      if Truthy(raw[0].1) {
        assert reg[i] == Build(raw[1..])[i - 1];
      } else {
        assert reg[i] == Build(raw[1..])[i];
      }
      BuildKeysDeclared(raw[1..], k);
    }
  }

  /** The registry has no entry for a falsy value and exactly the normalised
      descriptor under the original key for a truthy one. */
  lemma {:induction false} BuildLookup(raw: seq<(string, Value)>, k: string)
    requires DistinctRaw(raw)
    ensures Lookup(Build(raw), k) ==
      match RawLookup(raw, k)
      case None => None
      case Some(v) => if Truthy(v) then Some(Normalize(k, v)) else None
  {
    if raw != [] {
      BuildLookup(raw[1..], k);
      if raw[0].0 == k && !Truthy(raw[0].1) {
        NotDeclaredLater(raw, k);
      }
    }
  }

  /** A key `RawLookup` finds is declared at some position of the input. */
  lemma {:induction false} RawLookupDeclared(raw: seq<(string, Value)>, k: string)
    requires RawLookup(raw, k).Some?
    ensures exists i :: 0 <= i < |raw| && raw[i].0 == k
  {
    if raw[0].0 != k {
      RawLookupDeclared(raw[1..], k);
      var i :| 0 <= i < |raw[1..]| && raw[1..][i].0 == k;
      assert raw[i + 1].0 == k;
    }
  }

  /** A key declared first is not declared again. */
  lemma NotDeclaredLater(raw: seq<(string, Value)>, k: string)
    requires DistinctRaw(raw) && raw != [] && raw[0].0 == k
    ensures RawLookup(raw[1..], k).None?
  {
    if RawLookup(raw[1..], k).Some? {
      RawLookupDeclared(raw[1..], k);
      assert false;
    }
  }

  /** The shifted tail of `Sources`. */
  function Shift(s: seq<nat>): (r: seq<nat>)
    ensures |r| == |s|
    ensures forall i :: 0 <= i < |s| ==> r[i] == s[i] + 1
  {
    seq(|s|, i requires 0 <= i < |s| => s[i] + 1)
  }

  lemma {:induction false} SourcesLength(raw: seq<(string, Value)>)
    ensures |Sources(raw)| == |Build(raw)|
  {
    if raw != [] {
      SourcesLength(raw[1..]);
    }
  }

  /** Entry `j` of the registry is the normalised truthy input entry at
      position `Sources(raw)[j]`. */
  lemma {:induction false} SourcesSound(raw: seq<(string, Value)>, j: nat)
    requires j < |Sources(raw)|
    ensures |Sources(raw)| == |Build(raw)|
    ensures Sources(raw)[j] < |raw| && Truthy(raw[Sources(raw)[j]].1)
    ensures Build(raw)[j] == Entry(raw[Sources(raw)[j]].0, Normalize(raw[Sources(raw)[j]].0, raw[Sources(raw)[j]].1))
  {
    SourcesLength(raw);
    var tail := raw[1..];
    SourcesLength(tail);
    if Truthy(raw[0].1) {
      if j > 0 {
        SourcesSound(tail, j - 1);
        assert tail[Sources(tail)[j - 1]] == raw[Sources(raw)[j]];
      }
    } else {
      SourcesSound(tail, j);
      assert tail[Sources(tail)[j]] == raw[Sources(raw)[j]];
    }
  }

  lemma {:induction false} SourcesIncreasing(raw: seq<(string, Value)>)
    ensures forall j, l :: 0 <= j < l < |Sources(raw)| ==> Sources(raw)[j] < Sources(raw)[l]
  {
    if raw != [] {
      SourcesIncreasing(raw[1..]);
    }
  }

  lemma {:induction false} SourcesComplete(raw: seq<(string, Value)>, i: nat)
    requires i < |raw| && Truthy(raw[i].1)
    ensures i in Sources(raw)
  {
    if i > 0 {
      var tail := raw[1..];
      assert tail[i - 1] == raw[i];
      SourcesComplete(tail, i - 1);
      var j :| 0 <= j < |Sources(tail)| && Sources(tail)[j] == i - 1;
      assert Shift(Sources(tail))[j] == i;
    }
  }

  /** The registry is the in-order selection of the truthy entries of the
      input, each normalised under its own key, and none of them is missing. */
  lemma {:induction false} BuildSelectsTruthy(raw: seq<(string, Value)>)
    ensures |Sources(raw)| == |Build(raw)|
    ensures forall j :: 0 <= j < |Sources(raw)| ==>
      Sources(raw)[j] < |raw| && Truthy(raw[Sources(raw)[j]].1) &&
      Build(raw)[j] == Entry(raw[Sources(raw)[j]].0, Normalize(raw[Sources(raw)[j]].0, raw[Sources(raw)[j]].1))
    ensures forall j, l :: 0 <= j < l < |Sources(raw)| ==> Sources(raw)[j] < Sources(raw)[l]
    ensures forall i :: 0 <= i < |raw| && Truthy(raw[i].1) ==> i in Sources(raw)
  {
    SourcesLength(raw);
    forall j | 0 <= j < |Sources(raw)|
      ensures Sources(raw)[j] < |raw| && Truthy(raw[Sources(raw)[j]].1)
      ensures Build(raw)[j] == Entry(raw[Sources(raw)[j]].0, Normalize(raw[Sources(raw)[j]].0, raw[Sources(raw)[j]].1))
    {
      SourcesSound(raw, j);
    }
    SourcesIncreasing(raw);
    forall i | 0 <= i < |raw| && Truthy(raw[i].1) ensures i in Sources(raw) {
      SourcesComplete(raw, i);
    }
  }

  /** The registry keys are distinct. */
  lemma {:induction false} BuildDistinct(raw: seq<(string, Value)>)
    requires DistinctRaw(raw)
    ensures DistinctKeys(Build(raw))
  {
    BuildSelectsTruthy(raw);
    var reg, src := Build(raw), Sources(raw);
    forall i, j | 0 <= i < j < |reg| ensures reg[i].key != reg[j].key {
      assert src[i] < src[j];
    }
  }
}
