/**
 * The selector compiler of selector.go: the fixed attribute vocabulary with
 * its bit codes, `parseSelector` (modelled as the method ParseSelector over
 * the reference function Compile) and `getParams`.
 */
module Selectors {
  import opened Wrappers

  /** A value stored in a selector map (Go `interface{}` restricted to what
      the library puts there). */
  datatype Value =
    | Str(s: string)
    | Bool(b: bool)
    | Int(i: int)
    | List(items: seq<Value>)
    | Sel(fields: map<string, Value>)

  /** Go `Selector`, a `map[string]interface{}`. */
  type Selector = map<string, Value>

  datatype Error =
    | InvalidSelector(selector: Selector)  // "Invalid selector: %v"
    | Transport(reason: string)            // a failed remote call (HTTP or JSON), passed through
    | UiaError(code: int, message: string) // the library's own coded error

  const MaskKey: string := "mask"
  const RelationKey: string := "childOrSibling"
  const RelatedKey: string := "childOrSiblingSelector"
  const UidKey: string := "__UID"

  /** `_MASK`: the recognised attributes and their bit codes. */
  const MaskTable: map<string, bv32> := map[
    "text" := 0x01,
    "textContains" := 0x02,
    "textMatches" := 0x04,
    "textStartsWith" := 0x08,
    "className" := 0x10,
    "classNameMatches" := 0x20,
    "description" := 0x40,
    "descriptionContains" := 0x80,
    "descriptionMatches" := 0x0100,
    "descriptionStartsWith" := 0x0200,
    "checkable" := 0x0400,
    "checked" := 0x0800,
    "clickable" := 0x1000,
    "longClickable" := 0x2000,
    "scrollable" := 0x4000,
    "enabled" := 0x8000,
    "focusable" := 0x010000,
    "focused" := 0x020000,
    "selected" := 0x040000,
    "packageName" := 0x080000,
    "packageNameMatches" := 0x100000,
    "resourceId" := 0x200000,
    "resourceIdMatches" := 0x400000,
    "index" := 0x800000,
    "instance" := 0x01000000
  ]

  /** The attribute owning a code: the inverse of MaskTable. */
  function AttributeOf(code: bv32): Option<string>
  {
    if code == 0x01 then Some("text") else
    if code == 0x02 then Some("textContains") else
    if code == 0x04 then Some("textMatches") else
    if code == 0x08 then Some("textStartsWith") else
    if code == 0x10 then Some("className") else
    if code == 0x20 then Some("classNameMatches") else
    if code == 0x40 then Some("description") else
    if code == 0x80 then Some("descriptionContains") else
    if code == 0x100 then Some("descriptionMatches") else
    if code == 0x200 then Some("descriptionStartsWith") else
    if code == 0x400 then Some("checkable") else
    if code == 0x800 then Some("checked") else
    if code == 0x1000 then Some("clickable") else
    if code == 0x2000 then Some("longClickable") else
    if code == 0x4000 then Some("scrollable") else
    if code == 0x8000 then Some("enabled") else
    if code == 0x10000 then Some("focusable") else
    if code == 0x20000 then Some("focused") else
    if code == 0x40000 then Some("selected") else
    if code == 0x80000 then Some("packageName") else
    if code == 0x100000 then Some("packageNameMatches") else
    if code == 0x200000 then Some("resourceId") else
    if code == 0x400000 then Some("resourceIdMatches") else
    if code == 0x800000 then Some("index") else
    if code == 0x1000000 then Some("instance") else
    None
  }

  /** A single set bit. */
  predicate IsBit(p: bv32)
  {
    p != 0 && p & (p - 1) == 0
  }

  lemma TableRows0To4(k: string)
    requires k in {"text", "textContains", "textMatches", "textStartsWith", "className"}
    ensures k in MaskTable && IsBit(MaskTable[k]) && MaskTable[k] < 0x0200_0000
    ensures AttributeOf(MaskTable[k]) == Some(k)
  {
  }

  lemma TableRows5To9(k: string)
    requires k in {"classNameMatches", "description", "descriptionContains", "descriptionMatches", "descriptionStartsWith"}
    ensures k in MaskTable && IsBit(MaskTable[k]) && MaskTable[k] < 0x0200_0000
    ensures AttributeOf(MaskTable[k]) == Some(k)
  {
  }

  lemma TableRows10To14(k: string)
    requires k in {"checkable", "checked", "clickable", "longClickable", "scrollable"}
    ensures k in MaskTable && IsBit(MaskTable[k]) && MaskTable[k] < 0x0200_0000
    ensures AttributeOf(MaskTable[k]) == Some(k)
  {
  }

  lemma TableRows15To19(k: string)
    requires k in {"enabled", "focusable", "focused", "selected", "packageName"}
    ensures k in MaskTable && IsBit(MaskTable[k]) && MaskTable[k] < 0x0200_0000
    ensures AttributeOf(MaskTable[k]) == Some(k)
  {
  }

  lemma TableRows20To24(k: string)
    requires k in {"packageNameMatches", "resourceId", "resourceIdMatches", "index", "instance"}
    ensures k in MaskTable && IsBit(MaskTable[k]) && MaskTable[k] < 0x0200_0000
    ensures AttributeOf(MaskTable[k]) == Some(k)
  {
  }

  /** Every code is a single bit below 2^25, and the code gives back its
      attribute, so no two attributes share a code. */
  lemma TableRow(k: string)
    requires k in MaskTable
    ensures IsBit(MaskTable[k]) && MaskTable[k] < 0x0200_0000
    ensures AttributeOf(MaskTable[k]) == Some(k)
  {
    if k in {"text", "textContains", "textMatches", "textStartsWith", "className"} {
      TableRows0To4(k);
    } else if k in {"classNameMatches", "description", "descriptionContains", "descriptionMatches", "descriptionStartsWith"} {
      TableRows5To9(k);
    } else if k in {"checkable", "checked", "clickable", "longClickable", "scrollable"} {
      TableRows10To14(k);
    } else if k in {"enabled", "focusable", "focused", "selected", "packageName"} {
      TableRows15To19(k);
    } else {
      TableRows20To24(k);
    }
  }

  /** None of the keys the compiler adds itself, nor the server-handle key,
      is an attribute. */
  lemma ReservedKeysNotInTable()
    ensures MaskKey !in MaskTable && RelationKey !in MaskTable
    ensures RelatedKey !in MaskTable && UidKey !in MaskTable
  {
  }

  lemma BitsDisjoint(p: bv32, q: bv32)
    requires IsBit(p) && IsBit(q)
    ensures Meets(p, q) <==> p == q
  {
  }

  /** The codes of two attributes overlap exactly when the attributes are
      the same: the codes are distinct powers of two. */
  lemma CodesDisjoint(k1: string, k2: string)
    requires k1 in MaskTable && k2 in MaskTable
    ensures Meets(MaskTable[k1], MaskTable[k2]) <==> k1 == k2
  {
    TableRow(k1);
    TableRow(k2);
    BitsDisjoint(MaskTable[k1], MaskTable[k2]);
  }

  /** Two words share a set bit. */
  predicate Meets(a: bv32, b: bv32)
  {
    a & b != 0
  }

  /** No two keys of codes share a bit, and no code is zero. */
  ghost predicate DistinctCodes(codes: map<string, bv32>)
  {
    forall k1, k2 :: k1 in codes && k2 in codes ==> (Meets(codes[k1], codes[k2]) <==> k1 == k2)
  }

  lemma TableDistinctCodes()
    ensures DistinctCodes(MaskTable)
  {
    forall k1, k2 | k1 in MaskTable && k2 in MaskTable
      ensures Meets(MaskTable[k1], MaskTable[k2]) <==> k1 == k2
    {
      CodesDisjoint(k1, k2);
    }
  }

  lemma TableBound()
    ensures forall k :: k in MaskTable ==> MaskTable[k] < 0x0200_0000
  {
    forall k | k in MaskTable
      ensures MaskTable[k] < 0x0200_0000
    {
      TableRow(k);
    }
  }

  /** Every bit of c is set in m. */
  predicate Has(m: bv32, c: bv32)
  {
    m & c == c
  }

  /** m holds the code of every key. */
  ghost predicate Covers(m: bv32, codes: map<string, bv32>, keys: set<string>)
  {
    forall k :: k in keys && k in codes ==> Has(m, codes[k])
  }

  /** Whatever m shares with a word, the code of some key shares too: m has
      no bit that no key's code has. */
  ghost predicate Sourced(m: bv32, codes: map<string, bv32>, keys: set<string>)
  {
    forall b :: Meets(m, b) ==> exists k :: k in keys && k in codes && Meets(codes[k], b)
  }

  /** m is the bitwise OR of the codes of keys. */
  ghost predicate IsOrOf(m: bv32, codes: map<string, bv32>, keys: set<string>)
  {
    Covers(m, codes, keys) && Sourced(m, codes, keys)
  }

  lemma OrMeets(m: bv32, c: bv32, b: bv32)
    requires Meets(m | c, b)
    ensures Meets(m, b) || Meets(c, b)
  {
  }

  /** Two different words differ in a bit one of them has. */
  lemma XorMeets(m1: bv32, m2: bv32)
    requires !Meets(m1, m1 ^ m2) && !Meets(m2, m1 ^ m2)
    ensures m1 == m2
  {
  }

  lemma XorMissesCommon(m1: bv32, m2: bv32, c: bv32)
    requires Has(m1, c) && Has(m2, c)
    ensures !Meets(c, m1 ^ m2)
  {
  }

  lemma HighBitsClear(m: bv32)
    requires !Meets(m, 0xFE00_0000)
    ensures m < 0x0200_0000
  {
  }

  /** Adding a word that shares no bit never carries: it is an OR. */
  lemma DisjointAddIsOr(m: bv32, c: bv32)
    requires !Meets(m, c)
    ensures m | c == m + c
  {
  }

  lemma OrOfEmpty(codes: map<string, bv32>)
    ensures IsOrOf(0, codes, {})
  {
  }

  lemma OrHas(m: bv32, c: bv32, d: bv32)
    ensures Has(m, c) ==> Has(m | d, c)
    ensures Has(m | d, d)
  {
  }

  lemma CoversInsert(m: bv32, codes: map<string, bv32>, keys: set<string>, k: string)
    requires Covers(m, codes, keys) && k in codes
    ensures Covers(m | codes[k], codes, keys + {k})
  {
    var m' := m | codes[k];
    forall k' | k' in keys + {k} && k' in codes
      ensures Has(m', codes[k'])
    {
      OrHas(m, codes[k'], codes[k]);
    }
  }

  lemma SourcedInsert(m: bv32, codes: map<string, bv32>, keys: set<string>, k: string)
    requires Sourced(m, codes, keys) && k in codes
    ensures Sourced(m | codes[k], codes, keys + {k})
  {
    var m' := m | codes[k];
    forall b | Meets(m', b)
      ensures exists k' :: k' in keys + {k} && k' in codes && Meets(codes[k'], b)
    {
      OrMeets(m, codes[k], b);
      if Meets(m, b) {
        var k' :| k' in keys && k' in codes && Meets(codes[k'], b);
        assert k' in keys + {k};
      } else {
        assert k in keys + {k};
      }
    }
  }

  /** OR-ing in one more key's code gives the OR of the larger key set. */
  lemma OrOfInsert(m: bv32, codes: map<string, bv32>, keys: set<string>, k: string)
    requires IsOrOf(m, codes, keys) && k in codes
    ensures IsOrOf(m | codes[k], codes, keys + {k})
  {
    CoversInsert(m, codes, keys, k);
    SourcedInsert(m, codes, keys, k);
  }

  /** A word that shares no bit with any key's code shares none with the
      OR either. */
  lemma SourcedMisses(m: bv32, codes: map<string, bv32>, keys: set<string>, b: bv32)
    requires Sourced(m, codes, keys)
    requires forall k :: k in keys && k in codes ==> !Meets(codes[k], b)
    ensures !Meets(m, b)
  {
  }

  /** Two words holding every key's code differ only outside those codes. */
  lemma CoveredMissesDifference(m1: bv32, m2: bv32, codes: map<string, bv32>, keys: set<string>, k: string)
    requires Covers(m1, codes, keys) && Covers(m2, codes, keys) && k in keys && k in codes
    ensures !Meets(codes[k], m1 ^ m2)
  {
    XorMissesCommon(m1, m2, codes[k]);
  }

  lemma CoversMissDifference(m1: bv32, m2: bv32, codes: map<string, bv32>, keys: set<string>)
    requires Covers(m1, codes, keys) && Covers(m2, codes, keys)
    ensures forall k :: k in keys && k in codes ==> !Meets(codes[k], m1 ^ m2)
  {
    forall k | k in keys && k in codes
      ensures !Meets(codes[k], m1 ^ m2)
    {
      CoveredMissesDifference(m1, m2, codes, keys, k);
    }
  }

  /** A key set has only one OR. */
  lemma OrOfUnique(m1: bv32, m2: bv32, codes: map<string, bv32>, keys: set<string>)
    requires IsOrOf(m1, codes, keys) && IsOrOf(m2, codes, keys)
    ensures m1 == m2
  {
    var d := m1 ^ m2;
    CoversMissDifference(m1, m2, codes, keys);
    SourcedMisses(m1, codes, keys, d);
    SourcedMisses(m2, codes, keys, d);
    XorMeets(m1, m2);
  }

  /** With codes that pairwise share no bit, a key's code is in the OR
      exactly when the key is one of the keys. */
  lemma OrOfBit(m: bv32, codes: map<string, bv32>, keys: set<string>, k: string)
    requires IsOrOf(m, codes, keys) && DistinctCodes(codes) && k in codes
    ensures Meets(m, codes[k]) <==> k in keys
  {
    assert Meets(codes[k], codes[k]);
    if Meets(m, codes[k]) {
      var k' :| k' in keys && k' in codes && Meets(codes[k'], codes[k]);
    }
  }

  /** The OR stays below 2^25 when every code does. */
  lemma OrOfBound(m: bv32, codes: map<string, bv32>, keys: set<string>)
    requires IsOrOf(m, codes, keys)
    requires forall k :: k in codes ==> codes[k] < 0x0200_0000
    ensures m < 0x0200_0000
  {
    forall k | k in keys && k in codes
      ensures !Meets(codes[k], 0xFE00_0000)
    {
    }
    SourcedMisses(m, codes, keys, 0xFE00_0000);
    HighBitsClear(m);
  }

  /** The OR of the codes of keys, built one key at a time in an arbitrary
      order. */
  ghost function OrOf(codes: map<string, bv32>, keys: set<string>): (m: bv32)
    requires keys <= codes.Keys
    ensures IsOrOf(m, codes, keys)
    decreases keys
  {
    if keys == {} then
      OrOfEmpty(codes);
      0
    else
      var k :| k in keys;
      var rest := OrOf(codes, keys - {k});
      OrOfInsert(rest, codes, keys - {k}, k);
      assert keys - {k} + {k} == keys;
      rest | codes[k]
  }

  /** The mask of a set of attribute names. */
  ghost function Mask(keys: set<string>): (m: bv32)
    requires keys <= MaskTable.Keys
    ensures IsOrOf(m, MaskTable, keys)
  {
    OrOf(MaskTable, keys)
  }

  /** Whatever order the keys come in, OR-ing one more code gives the mask
      of the larger set. */
  lemma MaskInsert(keys: set<string>, k: string)
    requires keys <= MaskTable.Keys && k in MaskTable
    ensures Mask(keys + {k}) == Mask(keys) | MaskTable[k]
  {
    OrOfInsert(Mask(keys), MaskTable, keys, k);
    OrOfUnique(Mask(keys + {k}), Mask(keys) | MaskTable[k], MaskTable, keys + {k});
  }

  /** An attribute's code is in the mask exactly when the attribute is
      present, and the mask uses only the 25 low bits. */
  lemma MaskBit(keys: set<string>, k: string)
    requires keys <= MaskTable.Keys && k in MaskTable
    ensures Meets(Mask(keys), MaskTable[k]) <==> k in keys
    ensures Mask(keys) < 0x0200_0000
  {
    TableDistinctCodes();
    OrOfBit(Mask(keys), MaskTable, keys, k);
    TableBound();
    OrOfBound(Mask(keys), MaskTable, keys);
  }

  /** The codes are distinct powers of two, so adding a new attribute adds
      its code: the mask is the sum of the codes of its attributes. */
  lemma MaskIsSum(keys: set<string>, k: string)
    requires keys <= MaskTable.Keys && k in MaskTable && k !in keys
    ensures Mask(keys + {k}) == Mask(keys) + MaskTable[k]
  {
    MaskInsert(keys, k);
    MaskBit(keys, k);
    DisjointAddIsOr(Mask(keys), MaskTable[k]);
  }

  /** The mask identifies its attribute set. */
  lemma MaskDeterminesKeys(a: set<string>, b: set<string>)
    requires a <= MaskTable.Keys && b <= MaskTable.Keys
    ensures Mask(a) == Mask(b) <==> a == b
  {
    if Mask(a) == Mask(b) {
      forall k | k in a + b
        ensures k in a && k in b
      {
        MaskBit(a, k);
        MaskBit(b, k);
      }
    }
  }

  /** The fields the compiler adds to every selector: the mask and the two
      empty relation lists. */
  function Fixed(mask: bv32): Selector
  {
    map[MaskKey := Int(mask as int), RelationKey := List([]), RelatedKey := List([])]
  }

  /** What `parseSelector` computes, stated on the whole key set: the raw
      attributes plus the fixed fields, or the error naming the raw map. */
  ghost function Compile(raw: Selector): (r: Result<Selector, Error>)
    ensures r.Success? <==> raw.Keys <= MaskTable.Keys
    ensures r.Failure? ==> r.error == InvalidSelector(raw)
  {
    if raw.Keys <= MaskTable.Keys then
      Success(raw + Fixed(Mask(raw.Keys)))
    else
      Failure(InvalidSelector(raw))
  }

  /** The compiler's output after it has copied the keys in done. */
  function Partial(raw: Selector, done: set<string>, mask: bv32): Selector
    requires done <= raw.Keys
  {
    (map k | k in done :: raw[k]) + Fixed(mask)
  }

  lemma CopiedStep(raw: Selector, done: set<string>, k: string)
    requires done <= raw.Keys && k in raw
    ensures (map x | x in done :: raw[x])[k := raw[k]] == map x | x in done + {k} :: raw[x]
  {
  }

  lemma FixedUpdate(copied: Selector, mask: bv32, mask': bv32, k: string, v: Value)
    requires k != MaskKey && k != RelationKey && k != RelatedKey
    ensures (copied + Fixed(mask))[k := v][MaskKey := Int(mask' as int)] == copied[k := v] + Fixed(mask')
  {
  }

  /** Copying one more attribute and storing the new mask extends the
      partial output by that attribute. */
  lemma PartialStep(raw: Selector, done: set<string>, k: string, mask: bv32, mask': bv32)
    requires done <= raw.Keys && k in raw
    requires k != MaskKey && k != RelationKey && k != RelatedKey
    ensures Partial(raw, done, mask)[k := raw[k]][MaskKey := Int(mask' as int)]
         == Partial(raw, done + {k}, mask')
  {
    FixedUpdate(map x | x in done :: raw[x], mask, mask', k, raw[k]);
    CopiedStep(raw, done, k);
  }

  /** Once every key is copied, the partial output is the raw map plus the
      fixed fields. */
  lemma PartialDone(raw: Selector, mask: bv32)
    ensures Partial(raw, raw.Keys, mask) == raw + Fixed(mask)
  {
    assert (map k | k in raw.Keys :: raw[k]) == raw;
  }

  /** The state of the compiler's loop once it has visited the keys in
      done: all of them attributes, copied, and their codes in the mask. */
  ghost predicate Scanned(raw: Selector, done: set<string>, mask: bv32, res: Selector)
  {
    && done <= raw.Keys && done <= MaskTable.Keys
    && IsOrOf(mask, MaskTable, done)
    && res == Partial(raw, done, mask)
  }

  lemma ScanStart(raw: Selector)
    ensures Scanned(raw, {}, 0, Fixed(0))
  {
    OrOfEmpty(MaskTable);
    assert Fixed(0) == Partial(raw, {}, 0);
  }

  lemma ScanStep(raw: Selector, done: set<string>, mask: bv32, res: Selector, k: string)
    requires Scanned(raw, done, mask, res) && k in raw && k in MaskTable
    ensures Scanned(raw, done + {k}, mask | MaskTable[k],
                    res[k := raw[k]][MaskKey := Int((mask | MaskTable[k]) as int)])
  {
    ReservedKeysNotInTable();
    PartialStep(raw, done, k, mask, mask | MaskTable[k]);
    OrOfInsert(mask, MaskTable, done, k);
  }

  lemma ScanDone(raw: Selector, mask: bv32, res: Selector)
    requires Scanned(raw, raw.Keys, mask, res)
    ensures Compile(raw) == Success(res)
  {
    OrOfUnique(mask, Mask(raw.Keys), MaskTable, raw.Keys);
    PartialDone(raw, mask);
  }

  /** `parseSelector`: walks the raw keys in an unspecified order, copying
      each attribute and OR-ing its code into the mask, and gives up on the
      first key outside the table. */
  method ParseSelector(raw: Selector) returns (r: Result<Selector, Error>)
    ensures r == Compile(raw)
  {
    var res := Fixed(0);
    var mask: bv32 := 0;
    var todo := raw.Keys;
    ghost var done: set<string> := {};
    ScanStart(raw);
    while todo != {}
      invariant todo !! done && todo + done == raw.Keys
      invariant Scanned(raw, done, mask, res)
      decreases todo
    {
      var k :| k in todo;
      if k !in MaskTable {
        return Failure(InvalidSelector(raw));
      }
      ScanStep(raw, done, mask, res, k);
      res := res[k := raw[k]];
      mask := mask | MaskTable[k];
      res := res[MaskKey := Int(mask as int)];
      todo := todo - {k};
      done := done + {k};
    }
    ScanDone(raw, mask, res);
    return Success(res);
  }

  /** The keys the compiler adds. */
  const FixedKeys: set<string> := {MaskKey, RelationKey, RelatedKey}

  /** A map of attributes has none of the added keys. */
  lemma NoFixedKeys(raw: Selector)
    requires raw.Keys <= MaskTable.Keys
    ensures MaskKey !in raw && RelationKey !in raw && RelatedKey !in raw
  {
    ReservedKeysNotInTable();
  }

  lemma AddFixed(raw: Selector, mask: bv32)
    requires MaskKey !in raw && RelationKey !in raw && RelatedKey !in raw
    ensures (raw + Fixed(mask)).Keys == raw.Keys + FixedKeys
    ensures forall k :: k in raw ==> (raw + Fixed(mask))[k] == raw[k]
    ensures (raw + Fixed(mask)) - FixedKeys == raw
  {
    assert ((raw + Fixed(mask)) - FixedKeys).Keys == raw.Keys;
  }

  /** A compiled selector holds exactly the raw attributes, unchanged, plus
      the mask of their names and two empty relation lists. */
  lemma CompileShape(raw: Selector)
    requires Compile(raw).Success?
    ensures Compile(raw).value.Keys == raw.Keys + FixedKeys
    ensures forall k :: k in raw ==> Compile(raw).value[k] == raw[k]
    ensures Compile(raw).value[RelationKey] == List([])
    ensures Compile(raw).value[RelatedKey] == List([])
    ensures Compile(raw).value[MaskKey] == Int(Mask(raw.Keys) as int)
  {
    NoFixedKeys(raw);
    AddFixed(raw, Mask(raw.Keys));
  }

  /** Dropping the added fields gives the raw selector back. */
  lemma CompileRoundTrip(raw: Selector)
    requires Compile(raw).Success?
    ensures Compile(raw).value - FixedKeys == raw
  {
    NoFixedKeys(raw);
    AddFixed(raw, Mask(raw.Keys));
  }

  /** A compiled selector is not itself a valid raw selector: its mask key
      is not an attribute. */
  lemma CompileRejectsCompiled(raw: Selector)
    requires Compile(raw).Success?
    ensures Compile(Compile(raw).value) == Failure(InvalidSelector(Compile(raw).value))
  {
    ReservedKeysNotInTable();
    assert MaskKey in Compile(raw).value;
  }

  /** Whether compiling succeeds depends on the key set only. */
  lemma CompileSucceedsOnKeys(a: Selector, b: Selector)
    requires a.Keys == b.Keys
    ensures Compile(a).Success? <==> Compile(b).Success?
  {
  }

  /** `getParams`: the bare server handle once there is one, otherwise the
      whole selector. */
  function GetParams(s: Selector): (p: Value)
    ensures UidKey in s ==> p == s[UidKey]
    ensures UidKey !in s ==> p == Sel(s)
  {
    if UidKey in s then s[UidKey] else Sel(s)
  }

  /** The whole selector is sent exactly when it holds no server handle;
      a handle is never the selector that holds it. */
  lemma GetParamsWholeIff(s: Selector)
    ensures GetParams(s) == Sel(s) <==> UidKey !in s
  {
    if UidKey in s {
      assert s[UidKey] in s.Values;
      assert s[UidKey] < Sel(s);
    }
  }

  /** A freshly compiled selector has no server handle, so it is sent
      whole. */
  lemma CompiledSentWhole(raw: Selector)
    requires Compile(raw).Success?
    ensures GetParams(Compile(raw).value) == Sel(Compile(raw).value)
  {
    ReservedKeysNotInTable();
  }
}
