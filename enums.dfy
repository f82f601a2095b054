/**
  The enum metadata cache: Enums.TryParseUnderlyingTypeString, the
  EnumInfo tables built once per enum type, their queries (TryParse,
  GetName, GetEnumMember, GetLabel(s), IsDefined, GetNames, GetValues),
  the shared TryParse of EnumBase, and the checked ToEnum conversions of
  Enums<T>.

  Reflection is replaced by an input declaration (EnumDecl): the members in
  the order Enum.GetNames lists them, each with its value, its optional
  EnumMemberAttribute payload and its LabelAttributes. An enum value is its
  integer value; Unsafe.As between the underlying type and the enum is the
  identity on values in range.
*/
module Enums {
  import opened Wrappers
  import opened EnumerableExtensions
  import opened FastDictionary
  import opened DictionaryExtensions
  import opened Primitives

  // ---------------------------------------------------------------------
  // Enums.TryParseUnderlyingTypeString

  /**
    The numeric fallback of TryParse: the parser of the underlying type
    reads the string; Char takes one character, Boolean "True"/"False";
    every other type code misses. The Single case is modelled as a miss.
  */
  function TryParseUnderlyingTypeString(underlyingTypeCode: TypeCode, value: string): (r: Option<int>)
    ensures IsIntegerKind(underlyingTypeCode) ==>
      (r.Some? <==> ParseInteger(value).Some? && InRange(underlyingTypeCode, ParseInteger(value).value))
    ensures IsIntegerKind(underlyingTypeCode) && r.Some? ==> r.value == ParseInteger(value).value
    ensures underlyingTypeCode.Char? ==> r == TryParseChar(value)
    ensures underlyingTypeCode.Boolean? ==> r == TryParseBoolean(value)
    ensures !IsIntegral(underlyingTypeCode) && !underlyingTypeCode.Boolean? ==> r.None?
  {
    match underlyingTypeCode
    case Byte => TryParseIntegral(Byte, value)
    case Int16 => TryParseIntegral(Int16, value)
    case Int32 => TryParseIntegral(Int32, value)
    case Int64 => TryParseIntegral(Int64, value)
    case SByte => TryParseIntegral(SByte, value)
    case UInt16 => TryParseIntegral(UInt16, value)
    case UInt32 => TryParseIntegral(UInt32, value)
    case UInt64 => TryParseIntegral(UInt64, value)
    case Char => TryParseChar(value)
    case Boolean => TryParseBoolean(value)
    case _ => None
  }

  /** Every value of an integer kind, printed in decimal, is read back by the fallback. */
  lemma UnderlyingStringRoundTrip(underlyingTypeCode: TypeCode, v: int)
    requires IsIntegerKind(underlyingTypeCode) && InRange(underlyingTypeCode, v)
    ensures TryParseUnderlyingTypeString(underlyingTypeCode, FormatInteger(v)) == Some(v)
  {
    ParseFormat(v);
  }

  /**
    The fallback as the source writes it: the UInt64 case calls
    UInt32.TryParse and reinterprets the 32-bit result. The model keeps the
    32-bit value and leaves the upper half, read from beyond the local, as
    zero.
  */
  function TryParseUnderlyingTypeStringAsWritten(underlyingTypeCode: TypeCode, value: string): (r: Option<int>)
    ensures !underlyingTypeCode.UInt64? ==> r == TryParseUnderlyingTypeString(underlyingTypeCode, value)
    ensures underlyingTypeCode.UInt64? && r.Some? ==> 0 <= r.value <= 0xFFFF_FFFF
  {
    if underlyingTypeCode.UInt64? then TryParseIntegral(UInt32, value)
    else TryParseUnderlyingTypeString(underlyingTypeCode, value)
  }

  /**
    As written, a UInt64-backed enum cannot parse any number above
    UInt32.MaxValue, 4294967296 being the first; the corrected fallback
    reads it.
  */
  lemma UInt64FallbackRejectsLargeValues(v: int)
    requires 0xFFFF_FFFF < v <= 0xFFFF_FFFF_FFFF_FFFF
    ensures TryParseUnderlyingTypeStringAsWritten(UInt64, FormatInteger(v)) == None
    ensures TryParseUnderlyingTypeString(UInt64, FormatInteger(v)) == Some(v)
  {
    ParseFormat(v);
  }

  // ---------------------------------------------------------------------
  // The declaration that reflection would return

  datatype Label = Label(index: int, value: string)

  /** A field of the enum: name, value, EnumMemberAttribute payload (None for null), LabelAttributes. */
  datatype Member = Member(name: string, value: int, enumMember: Option<string>, labels: seq<Label>)

  datatype EnumDecl = EnumDecl(underlyingTypeCode: TypeCode, members: seq<Member>, isFlags: bool)

  /** v is a value of the underlying type tc. */
  predicate ValueOfKind(tc: TypeCode, v: int) {
    InRange(tc, v) || (tc.Boolean? && 0 <= v <= 1)
  }

  /**
    What the runtime guarantees of an enum type: an integral (or Char or
    Boolean) underlying type, distinct member names, every value of the
    underlying type.
  */
  predicate WellFormed(decl: EnumDecl) {
    && (IsIntegral(decl.underlyingTypeCode) || decl.underlyingTypeCode.Boolean?)
    && (forall i, j :: 0 <= i < j < |decl.members| ==> decl.members[i].name != decl.members[j].name)
    && (forall i :: 0 <= i < |decl.members| ==> ValueOfKind(decl.underlyingTypeCode, decl.members[i].value))
  }

  /** No two member names are equal ignoring case. */
  predicate FoldDistinct(decl: EnumDecl) {
    forall i, j :: 0 <= i < j < |decl.members| ==> Fold(decl.members[i].name) != Fold(decl.members[j].name)
  }

  /** Every member name is a C# identifier: it does not start with a digit or a sign. */
  predicate IdentifierNames(decl: EnumDecl) {
    forall i :: 0 <= i < |decl.members| ==>
      |decl.members[i].name| > 0 && !IsDigit(decl.members[i].name[0])
      && decl.members[i].name[0] != '-' && decl.members[i].name[0] != '+'
  }

  function NameOf(m: Member): string { m.name }
  function ValueOfMember(m: Member): int { m.value }
  function PairName(kv: (string, int)): string { kv.0 }
  function PairValue(kv: (string, int)): int { kv.1 }
  function FoldedName(kv: (string, int)): string { Fold(kv.0) }
  function LabelIndex(l: Label): int { l.index }
  function LabelValue(l: Label): string { l.value }

  /** members: (name, Enum.Parse(name)) for every name, in GetNames order. */
  function MemberPairs(decl: EnumDecl): (ps: seq<(string, int)>)
    ensures |ps| == |decl.members|
    ensures forall i :: 0 <= i < |ps| ==> ps[i] == (decl.members[i].name, decl.members[i].value)
  {
    Selected(decl.members, NameOf, ValueOfMember)
  }

  /**
    t.GetField(name): the member with that name. Every name it is asked for
    is declared; an undeclared one yields an empty stand-in.
  */
  function FieldOf(members: seq<Member>, name: string): (m: Member)
    ensures m.name == name
    ensures m in members || m == Member(name, 0, None, [])
  {
    if |members| == 0 then Member(name, 0, None, [])
    else if members[0].name == name then members[0]
    else FieldOf(members[1..], name)
  }

  /** With distinct names, GetField finds the member of that name. */
  lemma {:induction false} FieldOfDeclared(members: seq<Member>, i: int)
    requires 0 <= i < |members|
    requires forall a, b :: 0 <= a < b < |members| ==> members[a].name != members[b].name
    ensures FieldOf(members, members[i].name) == members[i]
  {
    if i > 0 {
      assert members[0].name != members[i].name;
      assert members[1..][i - 1] == members[i];
      FieldOfDeclared(members[1..], i - 1);
    }
  }

  // ---------------------------------------------------------------------
  // EnumInfo

  /** The value namesByMember stores: the name, the EnumMemberAttribute and the label dictionary. */
  datatype MemberInfo = MemberInfo(name: string, enumMember: Option<string>, labels: map<int, string>)

  /**
    The tables of EnumInfo<T>. The three dictionaries are represented by
    the maps they store (see FastDictionary for how lookups find them).
  */
  datatype EnumInfo = EnumInfo(
    names: seq<string>,
    values: seq<int>,
    members: seq<(string, int)>,
    membersByName: map<string, int>,
    namesByMember: map<int, MemberInfo>,
    membersByNameOrdinalIgnoreCase: map<string, int>,
    underlyingTypeCode: TypeCode,
    isFlags: bool)

  /** GetCustomAttributes<LabelAttribute>().DistinctBy(Index).ToFastReadOnlyDictionary(Index, Value). */
  function LabelsOf(m: Member): map<int, string> {
    PairsToMap(Selected(DistinctBy(m.labels, LabelIndex), LabelIndex, LabelValue))
  }

  /** The namesByMember value selector for the pair (name, value). */
  function InfoOf(decl: EnumDecl, name: string): MemberInfo {
    var field := FieldOf(decl.members, name);
    MemberInfo(name, field.enumMember, LabelsOf(field))
  }

  function InfoSelector(decl: EnumDecl): ((string, int)) -> MemberInfo {
    (kv: (string, int)) => InfoOf(decl, kv.0)
  }

  /**
    kvs is what membersByName.AllKV() yields: every (name, value) pair of
    the declaration exactly once, in bucket order.
  */
  predicate Enumerates(kvs: seq<(string, int)>, decl: EnumDecl) {
    var members := MemberPairs(decl);
    && |kvs| == |members|
    && DistinctPairKeys(kvs)
    && (forall t {:trigger Occurs(kvs[t], members)} :: 0 <= t < |kvs| ==> Occurs(kvs[t], members))
    && (forall i {:trigger Occurs(members[i], kvs)} :: 0 <= i < |members| ==> Occurs(members[i], kvs))
  }

  /** kv is one of the pairs of kvs (named so that the two directions of Enumerates do not feed each other). */
  predicate Occurs(kv: (string, int), kvs: seq<(string, int)>) {
    kv in kvs
  }

  /** membersByName: members.ToFastReadOnlyDictionary(name, value). */
  function ByName(decl: EnumDecl): map<string, int> {
    PairsToMap(MemberPairs(decl))
  }

  /** namesByMember: kvs.DistinctBy(value).ToFastReadOnlyDictionary(value, info of the name). */
  function ByValue(decl: EnumDecl, kvs: seq<(string, int)>): map<int, MemberInfo> {
    PairsToMap(Selected(DistinctBy(kvs, PairValue), PairValue, InfoSelector(decl)))
  }

  /** membersByNameOrdinalIgnoreCase: kvs into a dictionary keyed by the folded name. */
  function ByFoldedName(kvs: seq<(string, int)>): map<string, int> {
    PairsToMap(Selected(kvs, FoldedName, PairValue))
  }

  /**
    The EnumInfo constructor: names and values in GetNames order, the
    exact-name dictionary, namesByMember keyed by value from the first
    pair per value in the exact-name dictionary's enumeration order kvs,
    and the ignore-case dictionary over the same enumeration.
  */
  function BuildInfo(decl: EnumDecl, kvs: seq<(string, int)>): (info: EnumInfo)
    ensures |info.names| == |info.values| == |info.members| == |decl.members|
  {
    var members := MemberPairs(decl);
    EnumInfo(
      seq(|members|, i requires 0 <= i < |members| => members[i].0),
      seq(|members|, i requires 0 <= i < |members| => members[i].1),
      members,
      ByName(decl),
      ByValue(decl, kvs),
      ByFoldedName(kvs),
      decl.underlyingTypeCode,
      decl.isFlags)
  }

  /** TryGetValue on a dictionary's contents. */
  function Lookup<K, V>(m: map<K, V>, k: K): (r: Option<V>)
    ensures r.Some? <==> k in m
    ensures r.Some? ==> r.value == m[k]
  {
    if k in m then Some(m[k]) else None
  }

  // ---------------------------------------------------------------------
  // Queries

  /** TryParseIgnoreCase on the ordinal-ignore-case dictionary. */
  function TryParseIgnoreCase(info: EnumInfo, name: string): (r: Option<int>)
    ensures r.Some? <==> Fold(name) in info.membersByNameOrdinalIgnoreCase
    ensures r.Some? ==> r.value == info.membersByNameOrdinalIgnoreCase[Fold(name)]
  {
    Lookup(info.membersByNameOrdinalIgnoreCase, Fold(name))
  }

  /**
    TryParse(name, ignoreCase): the name lookup (exact or ignoring case)
    first, the numeric fallback of the underlying type second. The
    two-argument overload is the exact lookup, ignoreCase = false.
  */
  function TryParse(info: EnumInfo, name: string, ignoreCase: bool): (r: Option<int>)
    ensures var byName := if ignoreCase then TryParseIgnoreCase(info, name) else Lookup(info.membersByName, name);
      && (byName.Some? ==> r == byName)
      && (byName.None? ==> r == TryParseUnderlyingTypeString(info.underlyingTypeCode, name))
  {
    var byName := if ignoreCase then TryParseIgnoreCase(info, name) else Lookup(info.membersByName, name);
    if byName.Some? then byName
    else TryParseUnderlyingTypeString(info.underlyingTypeCode, name)
  }

  function GetName(info: EnumInfo, v: int): (r: Option<string>)
    ensures r.Some? <==> v in info.namesByMember
    ensures r.Some? ==> r.value == info.namesByMember[v].name
  {
    if v in info.namesByMember then Some(info.namesByMember[v].name) else None
  }

  /** GetEnumMember: null both for an undeclared value and for a member without the attribute. */
  function GetEnumMember(info: EnumInfo, v: int): (r: Option<string>)
    ensures GetName(info, v).None? ==> r.None?
    ensures GetName(info, v).Some? ==> r == info.namesByMember[v].enumMember
  {
    if v in info.namesByMember then info.namesByMember[v].enumMember else None
  }

  /** GetLabels: the label table of GetName's member, null for an undeclared value. */
  function GetLabels(info: EnumInfo, v: int): (r: Option<map<int, string>>)
    ensures r.Some? <==> GetName(info, v).Some?
    ensures r.Some? ==> r.value == info.namesByMember[v].labels
  {
    if v in info.namesByMember then Some(info.namesByMember[v].labels) else None
  }

  /** GetLabel: the label at index in GetLabels, null when either lookup misses. */
  function GetLabel(info: EnumInfo, v: int, index: int): (r: Option<string>)
    ensures r.Some? <==> GetLabels(info, v).Some? && index in GetLabels(info, v).value
    ensures r.Some? ==> r.value == GetLabels(info, v).value[index]
  {
    if v in info.namesByMember && index in info.namesByMember[v].labels
    then Some(info.namesByMember[v].labels[index])
    else None
  }

  /** IsDefined: the exact, case-sensitive name lookup succeeds. */
  predicate IsDefined(info: EnumInfo, name: string)
    ensures IsDefined(info, name) <==> Lookup(info.membersByName, name).Some?
  {
    name in info.membersByName
  }

  /** IsEmpty: GetValues has no element. */
  predicate IsEmpty(info: EnumInfo)
    ensures IsEmpty(info) <==> info.values == []
  {
    |info.values| == 0
  }

  // ---------------------------------------------------------------------
  // Properties of the tables

  /** The member pairs of a well-formed declaration never repeat a name. */
  lemma MemberPairsDistinct(decl: EnumDecl)
    requires WellFormed(decl)
    ensures DistinctPairKeys(MemberPairs(decl))
  {
  }

  /**
    values[i] is the value of names[i], both in GetNames order, and the
    exact-name dictionary maps each name to its value and has no other key.
  */
  lemma {:induction false} TablesAligned(decl: EnumDecl, kvs: seq<(string, int)>)
    requires WellFormed(decl)
    ensures var info := BuildInfo(decl, kvs);
      && (forall i :: 0 <= i < |decl.members| ==>
            info.names[i] == decl.members[i].name && info.values[i] == decl.members[i].value
            && info.names[i] in info.membersByName && info.membersByName[info.names[i]] == info.values[i])
      && |info.membersByName| == |decl.members|
      && (IsEmpty(info) <==> |decl.members| == 0)
  {
    MemberPairsDistinct(decl);
    PairsToMapLookup(MemberPairs(decl));
  }

  /** IsDefined holds exactly for a declared name, compared case-sensitively. */
  lemma {:induction false} IsDefinedExact(decl: EnumDecl, kvs: seq<(string, int)>, name: string)
    requires WellFormed(decl)
    ensures IsDefined(BuildInfo(decl, kvs), name) <==> exists i :: 0 <= i < |decl.members| && decl.members[i].name == name
  {
    var members := MemberPairs(decl);
    MemberPairsDistinct(decl);
    PairsToMapLookup(members);
    if name in PairsToMap(members) {
      var t :| 0 <= t < |members| && members[t].0 == name;
    }
  }

  /** A declared name parses, case-sensitively, to its member's value. */
  lemma ParseDeclaredName(decl: EnumDecl, kvs: seq<(string, int)>, i: int)
    requires WellFormed(decl) && 0 <= i < |decl.members|
    ensures TryParse(BuildInfo(decl, kvs), decl.members[i].name, false) == Some(decl.members[i].value)
  {
    TablesAligned(decl, kvs);
  }

  /** A name that is not declared falls through to the numeric fallback of the underlying type. */
  lemma ParseUndeclaredName(decl: EnumDecl, kvs: seq<(string, int)>, name: string)
    requires WellFormed(decl)
    requires forall i :: 0 <= i < |decl.members| ==> decl.members[i].name != name
    ensures TryParse(BuildInfo(decl, kvs), name, false)
         == TryParseUnderlyingTypeString(decl.underlyingTypeCode, name)
  {
    IsDefinedExact(decl, kvs, name);
  }

  /** A word that is neither a member name nor a literal, such as "xxxxx", does not parse. */
  lemma ParseUnknownWord(decl: EnumDecl, kvs: seq<(string, int)>)
    requires WellFormed(decl)
    requires forall i :: 0 <= i < |decl.members| ==> decl.members[i].name != "xxxxx"
    ensures TryParse(BuildInfo(decl, kvs), "xxxxx", false).None?
  {
    ParseUndeclaredName(decl, kvs, "xxxxx");
    assert Fold("xxxxx")[0] == 'X';
  }

  /** The declared member an enumerated pair comes from. */
  lemma EnumeratedMember(decl: EnumDecl, kvs: seq<(string, int)>, t: int) returns (i: int)
    requires Enumerates(kvs, decl) && 0 <= t < |kvs|
    ensures 0 <= i < |decl.members| && kvs[t] == (decl.members[i].name, decl.members[i].value)
  {
    var members := MemberPairs(decl);
    assert Occurs(kvs[t], members);
    i :| 0 <= i < |members| && members[i] == kvs[t];
  }

  /** Where the enumeration yields a declared member. */
  lemma MemberEnumerated(decl: EnumDecl, kvs: seq<(string, int)>, i: int) returns (t: int)
    requires Enumerates(kvs, decl) && 0 <= i < |decl.members|
    ensures 0 <= t < |kvs| && kvs[t] == (decl.members[i].name, decl.members[i].value)
  {
    var members := MemberPairs(decl);
    assert Occurs(members[i], kvs);
    t :| 0 <= t < |kvs| && kvs[t] == members[i];
  }

  /**
    The ignore-case dictionary built from the enumeration: when no two
    names fold together, each folded name maps to its member's value and
    no other key is present.
  */
  lemma {:induction false} IgnoreCaseTable(decl: EnumDecl, kvs: seq<(string, int)>)
    requires FoldDistinct(decl) && Enumerates(kvs, decl)
    ensures forall i :: 0 <= i < |decl.members| ==>
      Fold(decl.members[i].name) in ByFoldedName(kvs) && ByFoldedName(kvs)[Fold(decl.members[i].name)] == decl.members[i].value
    ensures forall k :: k in ByFoldedName(kvs) ==> exists i :: 0 <= i < |decl.members| && Fold(decl.members[i].name) == k
  {
    var ps := Selected(kvs, FoldedName, PairValue);
    FoldedKeysDistinct(decl, kvs);
    PairsToMapLookup(ps);
    forall i | 0 <= i < |decl.members|
      ensures Fold(decl.members[i].name) in ByFoldedName(kvs) && ByFoldedName(kvs)[Fold(decl.members[i].name)] == decl.members[i].value
    {
      var t := MemberEnumerated(decl, kvs, i);
      assert ps[t] == (Fold(decl.members[i].name), decl.members[i].value);
    }
    forall k | k in ByFoldedName(kvs)
      ensures exists i :: 0 <= i < |decl.members| && Fold(decl.members[i].name) == k
    {
      var t :| 0 <= t < |ps| && ps[t].0 == k;
      var i := EnumeratedMember(decl, kvs, t);
      assert Fold(decl.members[i].name) == k;
    }
  }

  /** The enumeration never repeats a folded name when the declaration does not. */
  lemma {:induction false} FoldedKeysDistinct(decl: EnumDecl, kvs: seq<(string, int)>)
    requires FoldDistinct(decl) && Enumerates(kvs, decl)
    ensures DistinctPairKeys(Selected(kvs, FoldedName, PairValue))
  {
    var members := MemberPairs(decl);
    var ps := Selected(kvs, FoldedName, PairValue);
    forall a, b | 0 <= a < b < |ps|
      ensures ps[a].0 != ps[b].0
    {
      var i := EnumeratedMember(decl, kvs, a);
      var j := EnumeratedMember(decl, kvs, b);
      assert i != j;
      if i < j {
        assert Fold(decl.members[i].name) != Fold(decl.members[j].name);
      } else {
        assert Fold(decl.members[j].name) != Fold(decl.members[i].name);
      }
    }
  }

  /**
    Ignoring case, the lower-cased form of every declared name parses to
    its member's value, provided no two names fold together.
  */
  lemma ParseIgnoreCaseDeclared(decl: EnumDecl, kvs: seq<(string, int)>, i: int)
    requires WellFormed(decl) && FoldDistinct(decl) && Enumerates(kvs, decl) && 0 <= i < |decl.members|
    ensures TryParse(BuildInfo(decl, kvs), ToLower(decl.members[i].name), true) == Some(decl.members[i].value)
  {
    IgnoreCaseTable(decl, kvs);
    FoldToLower(decl.members[i].name);
  }

  /**
    namesByMember has a key for each value the enumeration carries, and it
    holds the information of the first pair carrying that value.
  */
  lemma {:induction false} ByValueEntry(decl: EnumDecl, kvs: seq<(string, int)>, v: int)
    ensures v in ByValue(decl, kvs) <==> exists t :: 0 <= t < |kvs| && kvs[t].1 == v
    ensures forall t :: 0 <= t < |kvs| && kvs[t].1 == v && IsFirst(kvs, PairValue, t) ==>
      v in ByValue(decl, kvs) && ByValue(decl, kvs)[v] == InfoOf(decl, kvs[t].0)
    ensures v in ByValue(decl, kvs) ==>
      exists t :: 0 <= t < |kvs| && kvs[t].1 == v && IsFirst(kvs, PairValue, t)
  {
    DistinctByMapKeys(kvs, PairValue, InfoSelector(decl), v);
    forall t | 0 <= t < |kvs| && kvs[t].1 == v && IsFirst(kvs, PairValue, t)
      ensures v in ByValue(decl, kvs) && ByValue(decl, kvs)[v] == InfoOf(decl, kvs[t].0)
    {
      DistinctByMapFirst(kvs, PairValue, InfoSelector(decl), t);
    }
    if v in ByValue(decl, kvs) {
      var t0 :| 0 <= t0 < |kvs| && PairValue(kvs[t0]) == v;
      HasFirstOccurrence(kvs, PairValue, t0);
    }
  }

  /**
    GetName: defined exactly for declared values, and then a declared name
    carrying that value: the first of them in the enumeration order.
  */
  lemma {:induction false} GetNameDeclared(decl: EnumDecl, kvs: seq<(string, int)>, v: int)
    requires WellFormed(decl) && Enumerates(kvs, decl)
    ensures GetName(BuildInfo(decl, kvs), v).Some? <==> exists i :: 0 <= i < |decl.members| && decl.members[i].value == v
    ensures GetName(BuildInfo(decl, kvs), v).Some? ==>
      exists i :: 0 <= i < |decl.members| && decl.members[i].value == v
        && decl.members[i].name == GetName(BuildInfo(decl, kvs), v).value
    ensures forall t :: 0 <= t < |kvs| && kvs[t].1 == v && IsFirst(kvs, PairValue, t) ==>
      GetName(BuildInfo(decl, kvs), v) == Some(kvs[t].0)
  {
    ByValueEntry(decl, kvs, v);
    if exists i :: 0 <= i < |decl.members| && decl.members[i].value == v {
      var i :| 0 <= i < |decl.members| && decl.members[i].value == v;
      var t := MemberEnumerated(decl, kvs, i);
      assert kvs[t].1 == v;
    }
    if v in ByValue(decl, kvs) {
      var t :| 0 <= t < |kvs| && kvs[t].1 == v && IsFirst(kvs, PairValue, t);
      var i := EnumeratedMember(decl, kvs, t);
      assert decl.members[i].value == v && decl.members[i].name == kvs[t].0;
    }
  }

  /** A name GetName returns parses back, case-sensitively, to the value it was asked for. */
  lemma GetNameThenParse(decl: EnumDecl, kvs: seq<(string, int)>, v: int)
    requires WellFormed(decl) && Enumerates(kvs, decl)
    requires GetName(BuildInfo(decl, kvs), v).Some?
    ensures TryParse(BuildInfo(decl, kvs), GetName(BuildInfo(decl, kvs), v).value, false) == Some(v)
  {
    GetNameDeclared(decl, kvs, v);
    var i :| 0 <= i < |decl.members| && decl.members[i].value == v
      && decl.members[i].name == GetName(BuildInfo(decl, kvs), v).value;
    ParseDeclaredName(decl, kvs, i);
  }

  /**
    The label dictionary of a member: exactly the indices its labels carry,
    each with the value of the first label of that index.
  */
  lemma LabelsOfMember(m: Member)
    ensures forall index :: index in LabelsOf(m) <==> exists j :: 0 <= j < |m.labels| && m.labels[j].index == index
    ensures forall j :: 0 <= j < |m.labels| && IsFirst(m.labels, LabelIndex, j) ==>
      m.labels[j].index in LabelsOf(m) && LabelsOf(m)[m.labels[j].index] == m.labels[j].value
  {
    forall index
      ensures index in LabelsOf(m) <==> exists j :: 0 <= j < |m.labels| && m.labels[j].index == index
    {
      DistinctByMapKeys(m.labels, LabelIndex, LabelValue, index);
    }
    forall j | 0 <= j < |m.labels| && IsFirst(m.labels, LabelIndex, j)
      ensures m.labels[j].index in LabelsOf(m) && LabelsOf(m)[m.labels[j].index] == m.labels[j].value
    {
      DistinctByMapFirst(m.labels, LabelIndex, LabelValue, j);
    }
  }

  /**
    GetEnumMember, GetLabels and GetLabel are null for an undeclared value;
    for a declared one they read the attributes of the member GetName
    names: its EnumMemberAttribute, and its labels de-duplicated by index,
    the first label per index winning.
  */
  lemma {:induction false} MemberAttributes(decl: EnumDecl, kvs: seq<(string, int)>, v: int)
    requires WellFormed(decl) && Enumerates(kvs, decl)
    ensures GetName(BuildInfo(decl, kvs), v).None? ==>
      && GetEnumMember(BuildInfo(decl, kvs), v).None?
      && GetLabels(BuildInfo(decl, kvs), v).None?
      && (forall index :: GetLabel(BuildInfo(decl, kvs), v, index).None?)
    ensures forall i :: 0 <= i < |decl.members| && GetName(BuildInfo(decl, kvs), v) == Some(decl.members[i].name) ==>
      && GetEnumMember(BuildInfo(decl, kvs), v) == decl.members[i].enumMember
      && GetLabels(BuildInfo(decl, kvs), v) == Some(LabelsOf(decl.members[i]))
      && (forall index :: GetLabel(BuildInfo(decl, kvs), v, index) == Lookup(LabelsOf(decl.members[i]), index))
  {
    forall i | 0 <= i < |decl.members| && GetName(BuildInfo(decl, kvs), v) == Some(decl.members[i].name)
      ensures ByValue(decl, kvs)[v] == InfoOf(decl, decl.members[i].name)
    {
      ByValueEntry(decl, kvs, v);
      var t :| 0 <= t < |kvs| && kvs[t].1 == v && IsFirst(kvs, PairValue, t);
      assert ByValue(decl, kvs)[v].name == kvs[t].0;
    }
    forall i | 0 <= i < |decl.members|
      ensures InfoOf(decl, decl.members[i].name) == MemberInfo(decl.members[i].name, decl.members[i].enumMember, LabelsOf(decl.members[i]))
    {
      FieldOfDeclared(decl.members, i);
    }
  }

  // ---------------------------------------------------------------------
  // The pre-NET7 ignore-case scan

  /** The value of the first member whose name equals name ignoring case. */
  function FirstFolding(members: seq<(string, int)>, name: string): Option<int> {
    if |members| == 0 then None
    else if EqualsIgnoreCase(name, members[0].0) then Some(members[0].1)
    else FirstFolding(members[1..], name)
  }

  /** FirstFolding finds a member exactly when one folds like name, and then the first such. */
  lemma {:induction false} FirstFoldingSpec(members: seq<(string, int)>, name: string)
    ensures FirstFolding(members, name).Some? <==>
      exists i :: 0 <= i < |members| && Fold(members[i].0) == Fold(name)
    ensures forall i :: (0 <= i < |members| && Fold(members[i].0) == Fold(name)
      && (forall j :: 0 <= j < i ==> Fold(members[j].0) != Fold(name))) ==>
      FirstFolding(members, name) == Some(members[i].1)
  {
    if |members| > 0 {
      var rest := members[1..];
      FirstFoldingSpec(rest, name);
      forall i | 1 <= i < |members|
        ensures members[i] == rest[i - 1]
      {
      }
      if exists i :: 0 <= i < |rest| && Fold(rest[i].0) == Fold(name) {
        var i :| 0 <= i < |rest| && Fold(rest[i].0) == Fold(name);
        assert Fold(members[i + 1].0) == Fold(name);
      }
    }
  }

  /**
    TryParseIgnoreCase without the ordinal-ignore-case dictionary: walk
    members in GetNames order and return the first whose name equals name
    ignoring case.
  */
  method TryParseIgnoreCaseScan(members: seq<(string, int)>, name: string) returns (r: Option<int>)
    ensures r == FirstFolding(members, name)
  {
    var i := 0;
    while i < |members|
      invariant 0 <= i <= |members|
      invariant FirstFolding(members, name) == FirstFolding(members[i..], name)
    {
      assert members[i..][1..] == members[i + 1..];
      if EqualsIgnoreCase(name, members[i].0) {
        return Some(members[i].1);
      }
      i := i + 1;
    }
    return None;
  }

  /**
    When no two names fold together, the scan and the dictionary agree on
    every string.
  */
  lemma ScanAgreesWithTable(decl: EnumDecl, kvs: seq<(string, int)>, name: string)
    requires WellFormed(decl) && FoldDistinct(decl) && Enumerates(kvs, decl)
    ensures FirstFolding(BuildInfo(decl, kvs).members, name) == TryParseIgnoreCase(BuildInfo(decl, kvs), name)
  {
    var members := MemberPairs(decl);
    IgnoreCaseTable(decl, kvs);
    FirstFoldingSpec(members, name);
    assert BuildInfo(decl, kvs).members == members;
    assert TryParseIgnoreCase(BuildInfo(decl, kvs), name) == Lookup(ByFoldedName(kvs), Fold(name));
    if exists i :: 0 <= i < |members| && Fold(members[i].0) == Fold(name) {
      var i :| 0 <= i < |members| && Fold(members[i].0) == Fold(name);
      forall j | 0 <= j < i
        ensures Fold(members[j].0) != Fold(name)
      {
        assert Fold(decl.members[j].name) != Fold(decl.members[i].name);
      }
    }
  }

  // ---------------------------------------------------------------------
  // EnumBase<T>.TryParse

  /**
    EnumBase.TryParse over the subclass's TryParseIgnoreCase and
    TryParseCase: the name lookup first, the numeric fallback second.
  */
  function EnumBaseTryParse(tryParseIgnoreCase: string -> Option<int>, tryParseCase: string -> Option<int>,
                            underlyingTypeCode: TypeCode, name: string, ignoreCase: bool): (r: Option<int>)
    ensures var byName := if ignoreCase then tryParseIgnoreCase(name) else tryParseCase(name);
      && (byName.Some? ==> r == byName)
      && (byName.None? ==> r == TryParseUnderlyingTypeString(underlyingTypeCode, name))
  {
    if ignoreCase then
      match tryParseIgnoreCase(name)
      case Some(v) => Some(v)
      case None => TryParseUnderlyingTypeString(underlyingTypeCode, name)
    else
      match tryParseCase(name)
      case Some(v) => Some(v)
      case None => TryParseUnderlyingTypeString(underlyingTypeCode, name)
  }

  /**
    EnumBase's namesByMember: the (name, value) pairs in declaration order,
    de-duplicated by value twice, keyed by value.
  */
  function EnumBaseByValue(decl: EnumDecl): map<int, MemberInfo> {
    var members := MemberPairs(decl);
    PairsToMap(Selected(DistinctBy(DistinctBy(members, PairValue), PairValue), PairValue, InfoSelector(decl)))
  }

  /**
    EnumBase's value table holds exactly the declared values, each with the
    information of the first member declared with it; the second DistinctBy
    changes nothing.
  */
  lemma EnumBaseByValueFirstDeclared(decl: EnumDecl, i: int)
    requires 0 <= i < |decl.members|
    requires forall j :: 0 <= j < i ==> decl.members[j].value != decl.members[i].value
    ensures forall v :: v in EnumBaseByValue(decl) <==> exists j :: 0 <= j < |decl.members| && decl.members[j].value == v
    ensures decl.members[i].value in EnumBaseByValue(decl)
    ensures EnumBaseByValue(decl)[decl.members[i].value] == InfoOf(decl, decl.members[i].name)
  {
    var members := MemberPairs(decl);
    DistinctByIdempotent(members, PairValue);
    forall v
      ensures v in EnumBaseByValue(decl) <==> exists j :: 0 <= j < |decl.members| && decl.members[j].value == v
    {
      DistinctByMapKeys(members, PairValue, InfoSelector(decl), v);
      if exists j :: 0 <= j < |decl.members| && decl.members[j].value == v {
        var j :| 0 <= j < |decl.members| && decl.members[j].value == v;
        assert PairValue(members[j]) == v;
      }
    }
    assert IsFirst(members, PairValue, i);
    DistinctByMapFirst(members, PairValue, InfoSelector(decl), i);
  }

  /** EnumInfo.TryParse is EnumBase.TryParse over EnumInfo's two name lookups. */
  lemma EnumInfoIsEnumBase(info: EnumInfo, name: string, ignoreCase: bool)
    ensures TryParse(info, name, ignoreCase)
         == EnumBaseTryParse(n => TryParseIgnoreCase(info, n), n => Lookup(info.membersByName, n),
                             info.underlyingTypeCode, name, ignoreCase)
  {
  }

  // ---------------------------------------------------------------------
  // Enums<T>.Parse and the ToEnum family

  /** Parse: the TryParse result, or ArgumentException when TryParse fails. */
  function Parse(info: EnumInfo, name: string, ignoreCase: bool): (r: Result<int, Exception>)
    ensures r.Success? <==> TryParse(info, name, ignoreCase).Some?
    ensures r.Success? ==> r.value == TryParse(info, name, ignoreCase).value
    ensures r.Failure? ==> r.error == Argument
  {
    match TryParse(info, name, ignoreCase)
    case Some(v) => Success(v)
    case None => Failure(Argument)
  }

  /**
    ToEnum(int), ToEnum(byte), ..., ToEnum(UInt64): a checked Convert.ToX
    to the underlying type, InvalidOperationException when that type is not
    integral. All nine integral overloads behave alike on the value.
  */
  function ToEnumFromIntegral(underlyingTypeCode: TypeCode, value: int): (r: Result<int, Exception>)
    ensures r.Success? <==> InRange(underlyingTypeCode, value)
    ensures r.Success? ==> r.value == value
    ensures r.Failure? ==> r.error == if IsIntegral(underlyingTypeCode) then Overflow else InvalidOperation
  {
    if IsIntegral(underlyingTypeCode) then CheckedConvert(underlyingTypeCode, value)
    else Failure(InvalidOperation)
  }

  /** ToEnum(bool): 1 or 0 for an integer kind, InvalidCastException for Char. */
  function ToEnumFromBoolean(underlyingTypeCode: TypeCode, value: bool): (r: Result<int, Exception>)
    ensures r.Success? <==> IsIntegerKind(underlyingTypeCode)
    ensures r.Success? ==> r.value == if value then 1 else 0
    ensures underlyingTypeCode.Char? ==> r == Failure(InvalidCast)
    ensures !IsIntegral(underlyingTypeCode) ==> r == Failure(InvalidOperation)
  {
    if IsIntegerKind(underlyingTypeCode) then Success(if value then 1 else 0)
    else if underlyingTypeCode.Char? then Failure(InvalidCast)
    else Failure(InvalidOperation)
  }

  /**
    ToEnum(string): TryParse first; then Convert.ToX(string) on the
    underlying type, which fails with FormatException on a malformed
    literal and OverflowException on one out of range.
  */
  function ToEnumFromString(info: EnumInfo, value: string): (r: Result<int, Exception>)
    ensures TryParse(info, value, false).Some? ==> r == Success(TryParse(info, value, false).value)
    ensures TryParse(info, value, false).None? && !IsIntegral(info.underlyingTypeCode) ==>
      r == Failure(InvalidOperation)
    ensures TryParse(info, value, false).None? && IsIntegerKind(info.underlyingTypeCode) ==>
      r.Failure? && (r.error == Format <==> ParseInteger(value).None?)
    ensures TryParse(info, value, false).None? && IsIntegral(info.underlyingTypeCode) ==>
      r == Failure(if IsIntegerKind(info.underlyingTypeCode) && ParseInteger(value).Some? then Overflow else Format)
  {
    match TryParse(info, value, false)
    case Some(v) => Success(v)
    case None =>
      var kind := info.underlyingTypeCode;
      if IsIntegerKind(kind) then
        match ParseInteger(value)
        case None => Failure(Format)
        case Some(x) => CheckedConvert(kind, x)
      else if kind.Char? then
        (match TryParseChar(value) case Some(c) => Success(c) case None => Failure(Format))
      else Failure(InvalidOperation)
  }

  /** The run-time shape of the argument of ToEnum(object). */
  datatype Boxed =
    | BoxedNull
    | BoxedString(s: string)
    | BoxedIntegral(v: int)     // a boxed integral value or enum, converted through IConvertible
    | BoxedBoolean(b: bool)
    | BoxedFloating(x: real)    // a boxed double, float or decimal (finite)
    | BoxedOther                // an object that is not IConvertible

  /**
    ToEnum(object): a string goes to ToEnum(string); otherwise
    Convert.ToX(object) on the underlying type: null converts to 0, an
    integral value is range-checked, a floating or decimal value is rounded
    half to even and then range-checked (Char refuses it with
    InvalidCastException), anything not convertible fails with
    InvalidCastException.
  */
  function ToEnumFromObject(info: EnumInfo, value: Boxed): (r: Result<int, Exception>)
    ensures value.BoxedString? ==> r == ToEnumFromString(info, value.s)
    ensures value.BoxedIntegral? ==> r == ToEnumFromIntegral(info.underlyingTypeCode, value.v)
    ensures value.BoxedBoolean? ==> r == ToEnumFromBoolean(info.underlyingTypeCode, value.b)
    ensures !value.BoxedString? && !IsIntegral(info.underlyingTypeCode) ==> r == Failure(InvalidOperation)
    ensures value.BoxedNull? && IsIntegral(info.underlyingTypeCode) ==> r == Success(0)
    ensures value.BoxedFloating? && IsIntegerKind(info.underlyingTypeCode) ==>
      r == ToEnumFromIntegral(info.underlyingTypeCode, RoundHalfEven(value.x))
    ensures value.BoxedFloating? && info.underlyingTypeCode.Char? ==> r == Failure(InvalidCast)
  {
    var kind := info.underlyingTypeCode;
    match value
    case BoxedString(s) => ToEnumFromString(info, s)
    case BoxedNull => if IsIntegral(kind) then Success(0) else Failure(InvalidOperation)
    case BoxedIntegral(v) => ToEnumFromIntegral(kind, v)
    case BoxedBoolean(b) => ToEnumFromBoolean(kind, b)
    case BoxedFloating(x) =>
      if IsIntegerKind(kind) then ToEnumFromIntegral(kind, RoundHalfEven(x))
      else if kind.Char? then Failure(InvalidCast)
      else Failure(InvalidOperation)
    case BoxedOther => if IsIntegral(kind) then Failure(InvalidCast) else Failure(InvalidOperation)
  }

  /** FormatInteger never yields a C# identifier. */
  lemma FormatIsNotIdentifier(v: int)
    ensures |FormatInteger(v)| > 0
    ensures IsDigit(FormatInteger(v)[0]) || FormatInteger(v)[0] == '-'
  {
  }

  /**
    Every declared value of an integer-backed enum comes back from ToEnum:
    from any integral type, from its boxed form, from its name and from its
    decimal string.
  */
  lemma ToEnumRoundTrip(decl: EnumDecl, kvs: seq<(string, int)>, i: int)
    requires WellFormed(decl) && IdentifierNames(decl) && IsIntegerKind(decl.underlyingTypeCode)
    requires 0 <= i < |decl.members|
    ensures var info, v := BuildInfo(decl, kvs), decl.members[i].value;
      && ToEnumFromIntegral(info.underlyingTypeCode, v) == Success(v)
      && ToEnumFromObject(info, BoxedIntegral(v)) == Success(v)
      && ToEnumFromString(info, decl.members[i].name) == Success(v)
      && ToEnumFromString(info, FormatInteger(v)) == Success(v)
  {
    var v := decl.members[i].value;
    ParseDeclaredName(decl, kvs, i);
    FormatIsNotIdentifier(v);
    forall j | 0 <= j < |decl.members|
      ensures decl.members[j].name != FormatInteger(v)
    {
    }
    ParseUndeclaredName(decl, kvs, FormatInteger(v));
    UnderlyingStringRoundTrip(decl.underlyingTypeCode, v);
  }
}
