/** The JSON form of principals and of objects with access lists. */
module Records {
  import opened Wrappers
  import opened Words
  import opened Numbers

  /** JSON values as the HTTP library holds them in memory. */
  datatype Json = Null | Num(n: int) | Str(s: string) | Arr(items: seq<Json>) | Obj(fields: map<string, Json>)

  /** Member access and `as_string`; a missing member reads as null, which is not a string. */
  function StringField(v: Json, name: string): Result<string> {
    if v.Obj? && name in v.fields && v.fields[name].Str? then Ok(v.fields[name].s) else Err
  }

  function NumberField(v: Json, name: string, bound: nat): (r: Result<nat>)
    requires bound > 0
    ensures r.Ok? ==> r.value < bound
  {
    var text :- StringField(v, name);
    match Atoi(text, bound)
    case Number(n) => Ok(n)
    case _ => Err
  }

  // ----- principals

  datatype Principal = Principal(
    id: Uint64, lo: Uint32, hi: Uint32, image: string, configs: string, bearer: string)

  /** The constructor takes the ports as `int` and stores them as uint32_t. */
  function MakePrincipal(id: Uint64, lo: Int32, hi: Int32, image: string, configs: string, bearer: string): Principal {
    Principal(id, ToUint32(lo), ToUint32(hi), image, configs, bearer)
  }

  function PrincipalToJson(p: Principal): Json {
    Obj(map[
      "id" := Str(ItoaHex(p.id)),
      "lo" := Str(ItoaDec(p.lo)),
      "hi" := Str(ItoaDec(p.hi)),
      "image" := Str(p.image),
      "configs" := Str(p.configs),
      "bearer" := Str(p.bearer)])
  }

  function PrincipalFromJson(v: Json): Result<Principal> {
    var id :- NumberField(v, "id", TWO_64);
    var lo :- NumberField(v, "lo", TWO_32);
    var hi :- NumberField(v, "hi", TWO_32);
    var image :- StringField(v, "image");
    var configs :- StringField(v, "configs");
    var bearer :- StringField(v, "bearer");
    Ok(MakePrincipal(id, ToInt32(lo), ToInt32(hi), image, configs, bearer))
  }

  lemma {:induction false} SignedDetour(n: Uint32)
    ensures ToUint32(ToInt32(n)) == n
  {
  }

  lemma {:induction false} PrincipalFields(p: Principal)
    ensures var v := PrincipalToJson(p);
            && StringField(v, "id") == Ok(ItoaHex(p.id))
            && StringField(v, "lo") == Ok(ItoaDec(p.lo))
            && StringField(v, "hi") == Ok(ItoaDec(p.hi))
            && StringField(v, "image") == Ok(p.image)
            && StringField(v, "configs") == Ok(p.configs)
            && StringField(v, "bearer") == Ok(p.bearer)
  {
    assert |"id"| == 2 && |"lo"| == 2 && |"hi"| == 2 && |"image"| == 5 && |"configs"| == 7 && |"bearer"| == 6;
    assert "id"[0] == 'i' && "lo"[0] == 'l' && "hi"[0] == 'h';
  }

  /** Every principal, ports above 2^31 included, survives the trip through JSON. */
  lemma {:induction false} PrincipalRoundTrip(p: Principal)
    ensures PrincipalFromJson(PrincipalToJson(p)) == Ok(p)
  {
    PrincipalFields(p);
    HexRoundTrip(p.id, TWO_64);
    DecRoundTrip(p.lo, TWO_32);
    DecRoundTrip(p.hi, TWO_32);
    SignedDetour(p.lo);
    SignedDetour(p.hi);
    FromFields(PrincipalToJson(p), p);
  }

  lemma {:induction false} FromFields(v: Json, p: Principal)
    requires FieldsAre(v, p)
    ensures PrincipalFromJson(v) ==
            Ok(MakePrincipal(p.id, ToInt32(p.lo), ToInt32(p.hi), p.image, p.configs, p.bearer))
  {
  }

  /** Member `name` of an object is the string `s`. */
  ghost predicate Has(v: Json, name: string, s: string) {
    v.Obj? && name in v.fields && v.fields[name] == Str(s)
  }

  ghost predicate HasNumber(v: Json, name: string, bound: nat, n: nat)
    requires bound > 0
  {
    exists s :: Has(v, name, s) && Atoi(s, bound) == Number(n)
  }

  lemma {:induction false} FieldIff(v: Json, name: string, s: string)
    ensures StringField(v, name) == Ok(s) <==> Has(v, name, s)
  {
  }

  lemma {:induction false} NumberFieldIff(v: Json, name: string, bound: nat, n: nat)
    requires bound > 0
    ensures NumberField(v, name, bound) == Ok(n) <==> HasNumber(v, name, bound, n)
  {
    if NumberField(v, name, bound) == Ok(n) {
      assert Has(v, name, v.fields[name].s);
    }
    if HasNumber(v, name, bound, n) {
      var s :| Has(v, name, s) && Atoi(s, bound) == Number(n);
      FieldIff(v, name, s);
    }
  }

  /** Reading a principal succeeds exactly on objects with all six members well-formed, and gives their values. */
  lemma {:induction false} PrincipalReadsIff(v: Json, p: Principal)
    ensures PrincipalFromJson(v) == Ok(p) <==>
            && HasNumber(v, "id", 0x1_0000_0000_0000_0000, p.id)
            && HasNumber(v, "lo", 0x1_0000_0000, p.lo)
            && HasNumber(v, "hi", 0x1_0000_0000, p.hi)
            && Has(v, "image", p.image) && Has(v, "configs", p.configs) && Has(v, "bearer", p.bearer)
  {
    NumberFieldIff(v, "id", TWO_64, p.id);
    NumberFieldIff(v, "lo", TWO_32, p.lo);
    NumberFieldIff(v, "hi", TWO_32, p.hi);
    FieldIff(v, "image", p.image);
    FieldIff(v, "configs", p.configs);
    FieldIff(v, "bearer", p.bearer);
    SignedDetour(p.lo);
    SignedDetour(p.hi);
    if PrincipalFromJson(v) == Ok(p) {
      ReadsFields(v, p);
    } else if FieldsAre(v, p) {
      FromFields(v, p);
    }
  }

  /** The members of `v` as the accessors read them. */
  predicate FieldsAre(v: Json, p: Principal) {
    && NumberField(v, "id", TWO_64) == Ok(p.id)
    && NumberField(v, "lo", TWO_32) == Ok(p.lo)
    && NumberField(v, "hi", TWO_32) == Ok(p.hi)
    && StringField(v, "image") == Ok(p.image)
    && StringField(v, "configs") == Ok(p.configs)
    && StringField(v, "bearer") == Ok(p.bearer)
  }

  lemma {:induction false} ReadsFields(v: Json, p: Principal)
    requires PrincipalFromJson(v) == Ok(p)
    ensures FieldsAre(v, p)
  {
    SignedDetour(NumberField(v, "lo", TWO_32).value);
    SignedDetour(NumberField(v, "hi", TWO_32).value);
  }

  // ----- objects with access lists

  datatype Accessor = Accessor(name: string, acls: set<string>)

  predicate AllStrings(items: seq<Json>) {
    forall i :: 0 <= i < |items| ==> items[i].Str?
  }

  /** The strings of an array, in whatever order and however often they occur. */
  function Strings(items: seq<Json>): set<string>
    requires AllStrings(items)
  {
    set i | 0 <= i < |items| :: items[i].s
  }

  predicate Distinct(items: seq<Json>) {
    forall i, j :: 0 <= i < j < |items| ==> items[i] != items[j]
  }

  /** `v` lists every access rule of `o` once, in some order. */
  ghost predicate ListsAccessor(v: Json, o: Accessor) {
    && v.Obj? && v.fields.Keys == {"name", "acls"}
    && v.fields["name"] == Str(o.name)
    && v.fields["acls"].Arr?
    && var items := v.fields["acls"].items;
       AllStrings(items) && Strings(items) == o.acls && Distinct(items)
  }

  function AccessorOf(v: Json): Result<Accessor> {
    var name :- StringField(v, "name");
    if "acls" in v.fields && v.fields["acls"].Arr? && AllStrings(v.fields["acls"].items) then
      Ok(Accessor(name, Strings(v.fields["acls"].items)))
    else
      Err
  }

  /** Writes the rules to an array in the order in which the hash set happens to be visited. */
  method AccessorToJson(o: Accessor) returns (v: Json)
    ensures ListsAccessor(v, o)
  {
    var items: seq<Json> := [];
    var rest := o.acls;
    while rest != {}
      invariant AllStrings(items) && Distinct(items)
      invariant rest <= o.acls && Strings(items) == o.acls - rest
      decreases rest
    {
      var acl :| acl in rest;
      StringsAppend(items, acl);
      items := items + [Str(acl)];
      rest := rest - {acl};
    }
    v := Obj(map["name" := Str(o.name), "acls" := Arr(items)]);
    assert v.fields.Keys == {"name", "acls"};
    assert "name"[0] != "acls"[0];
  }

  lemma {:induction false} StringsAppend(items: seq<Json>, acl: string)
    requires AllStrings(items) && Distinct(items) && acl !in Strings(items)
    ensures AllStrings(items + [Str(acl)]) && Distinct(items + [Str(acl)])
    ensures Strings(items + [Str(acl)]) == Strings(items) + {acl}
  {
    var items' := items + [Str(acl)];
    assert AllStrings(items');
    forall x
      ensures x in Strings(items') <==> x in Strings(items) || x == acl
    {
      if x in Strings(items) {
        var i :| 0 <= i < |items| && items[i].s == x;
        assert items'[i].s == x;
      }
      if x == acl {
        assert items'[|items|].s == x;
      }
    }
    forall i | 0 <= i < |items|
      ensures items[i] != Str(acl)
    {
      assert items[i].s in Strings(items);
    }
  }

  /** Reads the array item by item into a set, and throws on the first item that is not a string. */
  method AccessorFromJson(v: Json) returns (r: Result<Accessor>)
    ensures r == AccessorOf(v)
  {
    if !StringField(v, "name").Ok? || "acls" !in v.fields || !v.fields["acls"].Arr? {
      return Err;
    }
    var items := v.fields["acls"].items;
    var acls := {};
    var i := 0;
    while i < |items|
      invariant 0 <= i <= |items|
      invariant AllStrings(items[..i]) && acls == Strings(items[..i])
    {
      if !items[i].Str? {
        return Err;
      }
      StringsNext(items, i);
      acls := acls + {items[i].s};
      i := i + 1;
    }
    assert items[..i] == items;
    r := Ok(Accessor(v.fields["name"].s, acls));
  }

  lemma {:induction false} StringsNext(items: seq<Json>, i: nat)
    requires i < |items| && AllStrings(items[..i]) && items[i].Str?
    ensures AllStrings(items[..i + 1])
    ensures Strings(items[..i + 1]) == Strings(items[..i]) + {items[i].s}
  {
    var before, after := items[..i], items[..i + 1];
    assert after == before + [items[i]];
    forall x
      ensures x in Strings(after) <==> x in Strings(before) || x == items[i].s
    {
      if x in Strings(before) {
        var j :| 0 <= j < |before| && before[j].s == x;
        assert after[j].s == x;
      }
      if x == items[i].s {
        assert after[i].s == x;
      }
    }
  }

  /** Reading succeeds exactly on objects with a name and an array of strings only, whatever the array repeats. */
  lemma {:induction false} AccessorReadsIff(v: Json, o: Accessor)
    ensures AccessorOf(v) == Ok(o) <==>
            && Has(v, "name", o.name)
            && "acls" in v.fields && v.fields["acls"].Arr?
            && var items := v.fields["acls"].items;
               && (forall i :: 0 <= i < |items| ==> items[i].Str? && items[i].s in o.acls)
               && forall acl :: acl in o.acls ==> Str(acl) in items
  {
    FieldIff(v, "name", o.name);
    if Has(v, "name", o.name) && "acls" in v.fields && v.fields["acls"].Arr? {
      var items := v.fields["acls"].items;
      if AllStrings(items) {
        forall acl
          ensures acl in Strings(items) <==> Str(acl) in items
        {
          if Str(acl) in items {
            var i :| 0 <= i < |items| && items[i] == Str(acl);
            assert items[i].s == acl;
          }
        }
        assert forall i :: 0 <= i < |items| ==> items[i].s in Strings(items);
        assert Strings(items) <= o.acls && o.acls <= Strings(items) ==> Strings(items) == o.acls;
      }
    }
  }

  /** Whatever order the set was written in, reading gives the same object back. */
  lemma {:induction false} AccessorRoundTrip(v: Json, o: Accessor)
    requires ListsAccessor(v, o)
    ensures AccessorOf(v) == Ok(o)
  {
    assert "name" in v.fields && "acls" in v.fields;
  }
}
