/**
 * The hero sheet record (class Hero): a new hero's default sheet, to_dict and
 * from_dict. The source reads and writes the hero's attributes by name
 * (setattr, hasattr, the instance dictionary), so the model keeps them as a
 * map from attribute name to a value tagged with its kind. The clock reading
 * stored in last_updated is passed in by the caller.
 */
module HeroModel {

  /** One trait slot of the hive, or one scar: its text and its success tokens. */
  datatype Trait = Trait(text: string, tokens: int)

  /** A value of the hero's attribute dictionary, one constructor per kind of attribute. */
  datatype Value =
    | Str(s: string)                       // name, concept, last_updated
    | Int(i: int)                          // adrenaline, confusion
    | StrList(items: seq<string>)          // resources, lessons
    | TraitMap(slots: map<string, Trait>)  // traits, scars
    | CountMap(counts: map<string, int>)   // misfortunes

  /** The trait slots in the constructor's order: the archetype, six qualities, twelve abilities. */
  const TraitKeys: seq<string> :=
    ["archetype", "q1", "q2", "q3", "q4", "q5", "q6",
     "a1", "a2", "a3", "a4", "a5", "a6", "a7", "a8", "a9", "a10", "a11", "a12"]

  /** The attributes a new Hero has. */
  const AttributeNames: set<string> :=
    {"name", "concept", "last_updated", "traits", "resources", "scars", "lessons",
     "misfortunes", "adrenaline", "confusion"}

  /** The hive of a new hero: 19 slots, each with no text and no token. */
  function EmptyTraits(): (m: map<string, Trait>)
    ensures |m| == 19
    ensures forall k :: k in m <==> k in TraitKeys
    ensures forall k :: k in m ==> m[k] == Trait("", 0)
  {
    var m := map k | k in TraitKeys :: Trait("", 0);
    assert forall i, j :: 0 <= i < j < |TraitKeys| ==> TraitKeys[i] != TraitKeys[j];
    DistinctCard(TraitKeys);
    assert m.Keys == set k | k in TraitKeys;
    m
  }

  /** A sequence without repetitions has as many distinct elements as it is long. */
  lemma {:induction false} DistinctCard<T>(s: seq<T>)
    requires forall i, j :: 0 <= i < j < |s| ==> s[i] != s[j]
    ensures |set x | x in s| == |s|
  {
    if s != [] {
      DistinctCard(s[1..]);
      assert (set x | x in s) == {s[0]} + (set x | x in s[1..]);
      assert s[0] !in s[1..];
    }
  }

  /** The attribute dictionary of a new Hero, stamped with the clock reading `now`. */
  function Defaults(now: string): map<string, Value>
  {
    map[
      "name" := Str("New Hero"),
      "concept" := Str(""),
      "last_updated" := Str(now),
      "traits" := TraitMap(EmptyTraits()),
      "resources" := StrList([]),
      "scars" := TraitMap(map[]),
      "lessons" := StrList([]),
      "misfortunes" := CountMap(map[]),
      "adrenaline" := Int(0),
      "confusion" := Int(0)
    ]
  }

  /** The dictionary `base` with each of its keys that `data` also has replaced by data's value. */
  function Overlay(base: map<string, Value>, data: map<string, Value>): map<string, Value>
  {
    map k | k in base :: if k in data then data[k] else base[k]
  }

  class Hero {
    /** The hero's attributes by name. */
    var attrs: map<string, Value>

    ghost predicate Valid()
      reads this
    {
      attrs.Keys == AttributeNames
    }

    /** A default sheet, its fields assigned one by one. */
    constructor (now: string)
      ensures Valid() && attrs == Defaults(now)
    {
      attrs := map[];
      new;
      attrs := attrs["name" := Str("New Hero")];
      attrs := attrs["concept" := Str("")];
      attrs := attrs["last_updated" := Str(now)];
      attrs := attrs["traits" := TraitMap(EmptyTraits())];
      attrs := attrs["resources" := StrList([])];
      attrs := attrs["scars" := TraitMap(map[])];
      attrs := attrs["lessons" := StrList([])];
      attrs := attrs["misfortunes" := CountMap(map[])];
      attrs := attrs["adrenaline" := Int(0)];
      attrs := attrs["confusion" := Int(0)];
      assert attrs == Defaults(now);
      FreshHeroSheet(now);
    }

    /** to_dict: restamps last_updated with `now` and hands out the attribute dictionary. */
    method ToDict(now: string) returns (d: map<string, Value>)
      requires Valid()
      modifies this
      ensures Valid()
      ensures attrs == old(attrs)["last_updated" := Str(now)]
      ensures d == attrs
    {
      attrs := attrs["last_updated" := Str(now)];
      d := attrs;
    }

    /** from_dict: a new default hero, then every entry of `data` whose key the hero already
        has is assigned to that attribute; other entries are skipped. */
    static method FromDict(data: map<string, Value>, now: string) returns (hero: Hero)
      ensures fresh(hero) && hero.Valid()
      ensures hero.attrs == Overlay(Defaults(now), data)
    {
      hero := new Hero(now);
      var pending := data.Keys;
      while pending != {}
        invariant pending <= data.Keys
        invariant hero.attrs.Keys == AttributeNames
        invariant forall k :: k in hero.attrs ==>
                    hero.attrs[k] == if k in data && k !in pending then data[k] else Defaults(now)[k]
        decreases pending
      {
        var key :| key in pending;
        if key in hero.attrs {
          hero.attrs := hero.attrs[key := data[key]];
        }
        pending := pending - {key};
      }
    }
  }

  /** A new hero has exactly the ten attributes, the name "New Hero", an empty concept, no
      resources, scars, lessons or misfortunes, no adrenaline or confusion, and 19 empty
      trait slots: the archetype, q1 to q6 and a1 to a12. */
  lemma FreshHeroSheet(now: string)
    ensures var d := Defaults(now);
      && d.Keys == AttributeNames
      && d["name"] == Str("New Hero") && d["concept"] == Str("") && d["last_updated"] == Str(now)
      && d["resources"] == StrList([]) && d["lessons"] == StrList([])
      && d["scars"] == TraitMap(map[]) && d["misfortunes"] == CountMap(map[])
      && d["adrenaline"] == Int(0) && d["confusion"] == Int(0)
      && d["traits"].TraitMap? && |d["traits"].slots| == 19
      && (forall k :: k in d["traits"].slots <==> k in TraitKeys)
      && (forall k :: k in d["traits"].slots ==> d["traits"].slots[k] == Trait("", 0))
  {
  }

  /** from_dict keeps exactly the hero's attributes, ignoring keys of the input that are not
      attributes; an attribute the input has is replaced by the input's value as a whole, and
      one it lacks keeps its default. */
  lemma FromDictFields(data: map<string, Value>, now: string)
    ensures var h := Overlay(Defaults(now), data);
      && h.Keys == AttributeNames
      && (forall k :: k in data && k !in AttributeNames ==> k !in h)
      && (forall k :: k in AttributeNames && k in data ==> h[k] == data[k])
      && (forall k :: k in AttributeNames && k !in data ==> h[k] == Defaults(now)[k])
  {
  }

  /** A traits entry with a single slot replaces the whole 19-slot hive: nothing is merged. */
  lemma FromDictReplacesTraitsWholesale(data: map<string, Value>, now: string, slot: string, t: Trait)
    requires "traits" in data && data["traits"] == TraitMap(map[slot := t])
    ensures Overlay(Defaults(now), data)["traits"].slots == map[slot := t]
    ensures |Overlay(Defaults(now), data)["traits"].slots| == 1
  {
  }

  /** from_dict undoes to_dict: rebuilding a hero from any dictionary that has exactly the
      hero's attributes gives that dictionary back. */
  lemma RoundTrip(d: map<string, Value>, now: string)
    requires d.Keys == AttributeNames
    ensures Overlay(Defaults(now), d) == d
  {
  }

  /** save_to_file then load_from_file, without the file: the loaded hero has every attribute
      of the saved one, last_updated included. */
  method SaveThenLoad(hero: Hero, savedAt: string, loadedAt: string) returns (loaded: Hero)
    requires hero.Valid()
    modifies hero
    ensures hero.Valid() && hero.attrs == old(hero.attrs)["last_updated" := Str(savedAt)]
    ensures fresh(loaded) && loaded.Valid()
    ensures loaded.attrs == hero.attrs
  {
    var d := hero.ToDict(savedAt);
    loaded := Hero.FromDict(d, loadedAt);
    RoundTrip(d, loadedAt);
  }
}
