/**
  Enums<T>: the per-type cache of the enum's metadata (the static Info
  field), filled on first use by CheckInfo or replaced by SetEnumInfo, and
  the public entry points that read through it.
*/
module EnumRegistry {
  import opened Wrappers
  import opened EnumerableExtensions
  import opened FastDictionary
  import opened DictionaryExtensions
  import opened Enums

  /**
    new EnumInfo<T>(): build membersByName from the (name, value) pairs,
    enumerate it with AllKV, and derive namesByMember and the ignore-case
    dictionary from that enumeration. kvs is the enumeration order, which
    depends on the string hash.
  */
  method NewEnumInfo(decl: EnumDecl, hash: string -> int) returns (info: EnumInfo, ghost kvs: seq<(string, int)>)
    requires WellFormed(decl)
    ensures Enumerates(kvs, decl)
    ensures info == BuildInfo(decl, kvs)
  {
    var members := MemberPairs(decl);
    assert Selected(members, PairName, PairValue) == members;
    var r := ToFastReadOnlyDictionary(ArrayOf(members), PairName, PairValue, hash);
    if r.Failure? {
      assert false;
    } else {
      var membersByName := r.value;
      MemberPairsDistinct(decl);
      PairsToMapLookup(members);
      var all := membersByName.AllKV();
      EnumeratesByName(decl, all);
      kvs := all;
      info := BuildInfo(decl, all);
    }
  }

  /**
    Any sequence that yields each entry of the exact-name dictionary once
    enumerates the declaration.
  */
  lemma {:induction false} EnumeratesByName(decl: EnumDecl, kvs: seq<(string, int)>)
    requires WellFormed(decl)
    requires |kvs| == |ByName(decl)| && DistinctPairKeys(kvs)
    requires forall t :: 0 <= t < |kvs| ==> kvs[t].0 in ByName(decl) && ByName(decl)[kvs[t].0] == kvs[t].1
    requires forall k :: k in ByName(decl) ==> exists t :: 0 <= t < |kvs| && kvs[t].0 == k
    ensures Enumerates(kvs, decl)
  {
    var members := MemberPairs(decl);
    MemberPairsDistinct(decl);
    PairsToMapLookup(members);
    forall t | 0 <= t < |kvs|
      ensures Occurs(kvs[t], members)
    {
      var i :| 0 <= i < |members| && members[i].0 == kvs[t].0;
      assert members[i] == kvs[t];
    }
    forall i | 0 <= i < |members|
      ensures Occurs(members[i], kvs)
    {
      var t :| 0 <= t < |kvs| && kvs[t].0 == members[i].0;
      assert kvs[t] == members[i];
    }
  }

  /** Enums<T>: the cached metadata of one enum type. */
  class EnumCache {
    /** Info: None until first use or until SetEnumInfo supplies one. */
    var info: Option<EnumInfo>
    const decl: EnumDecl
    const hash: string -> int

    constructor (decl: EnumDecl, hash: string -> int)
      ensures this.decl == decl && this.hash == hash && info.None?
    {
      this.decl := decl;
      this.hash := hash;
      info := None;
    }

    /** Info holds metadata built from the declaration, for some enumeration order. */
    ghost predicate Built()
      reads this
    {
      info.Some? && exists kvs :: Enumerates(kvs, decl) && info.value == BuildInfo(decl, kvs)
    }

    /** The cached metadata, built from the declaration on first use. */
    method CheckInfo() returns (r: EnumInfo)
      requires WellFormed(decl)
      modifies this
      ensures old(info).Some? ==> r == old(info).value
      ensures info == Some(r)
      ensures old(info).None? ==> Built()
    {
      if info.None? {
        var built, kvs := NewEnumInfo(decl, hash);
        info := Some(built);
      }
      r := info.value;
    }

    /** Enums.SetEnumInfo: replace the cached metadata, built or not. */
    method SetEnumInfo(enumInfo: EnumInfo)
      modifies this
      ensures info == Some(enumInfo)
    {
      info := Some(enumInfo);
    }

    /** Enums<T>.Parse: the value of the name, ArgumentException when it does not parse. */
    method Parse(name: string, ignoreCase: bool) returns (r: Result<int, Exception>)
      requires WellFormed(decl)
      modifies this
      ensures info.Some? && r == Enums.Parse(info.value, name, ignoreCase)
      ensures old(info).Some? ==> info == old(info)
      ensures old(info).None? ==> Built()
    {
      var current := CheckInfo();
      r := Enums.Parse(current, name, ignoreCase);
    }

    /** Enums<T>.TryParse. */
    method TryParse(name: string, ignoreCase: bool) returns (r: Option<int>)
      requires WellFormed(decl)
      modifies this
      ensures info.Some? && r == Enums.TryParse(info.value, name, ignoreCase)
      ensures old(info).Some? ==> info == old(info)
      ensures old(info).None? ==> Built()
    {
      var current := CheckInfo();
      r := Enums.TryParse(current, name, ignoreCase);
    }

    /** Enums<T>.GetName. */
    method GetName(v: int) returns (r: Option<string>)
      requires WellFormed(decl)
      modifies this
      ensures info.Some? && r == Enums.GetName(info.value, v)
      ensures old(info).Some? ==> info == old(info)
      ensures old(info).None? ==> Built()
    {
      var current := CheckInfo();
      r := Enums.GetName(current, v);
    }

    /** Enums<T>.IsDefined. */
    method IsDefined(name: string) returns (r: bool)
      requires WellFormed(decl)
      modifies this
      ensures info.Some? && r == Enums.IsDefined(info.value, name)
      ensures old(info).Some? ==> info == old(info)
      ensures old(info).None? ==> Built()
    {
      var current := CheckInfo();
      r := Enums.IsDefined(current, name);
    }

    /** Enums<T>.ToEnum(object), and through it ToEnum(string), on the cached underlying type. */
    method ToEnum(value: Boxed) returns (r: Result<int, Exception>)
      requires WellFormed(decl)
      modifies this
      ensures info.Some? && r == ToEnumFromObject(info.value, value)
      ensures old(info).Some? ==> info == old(info)
      ensures old(info).None? ==> Built()
    {
      var current := CheckInfo();
      r := ToEnumFromObject(current, value);
    }
  }

  /**
    On a fresh cache, Parse of a declared name yields its value, and a
    second Parse sees the same metadata the first one built.
  */
  method ParseDeclaredThroughCache(decl: EnumDecl, hash: string -> int, i: int) returns (first: Result<int, Exception>, second: Result<int, Exception>)
    requires WellFormed(decl) && 0 <= i < |decl.members|
    ensures first == Success(decl.members[i].value)
    ensures second == first
  {
    var cache := new EnumCache(decl, hash);
    first := cache.Parse(decl.members[i].name, false);
    forall kvs: seq<(string, int)>
      ensures TryParse(BuildInfo(decl, kvs), decl.members[i].name, false) == Some(decl.members[i].value)
    {
      ParseDeclaredName(decl, kvs, i);
    }
    second := cache.Parse(decl.members[i].name, false);
  }
}
