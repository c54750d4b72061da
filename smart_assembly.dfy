/** de4dot's SmartAssembly deobfuscator: how it scores a module, guesses the obfuscator's version
    when the PoweredBy attribute does not carry one, and picks the "big type" of newer versions.
    Types are records of what the rules look at; a module's types are a sequence, and the module
    type (`<Module>`) is identified by its index in that sequence. */
module SmartAssembly {
  import opened Wrappers
  import opened Dictionary

  const THE_NAME := "SmartAssembly"
  const POWERED_BY_5 := "Powered by SmartAssembly"
  const POWERED_BY_1_TO_4 := "Powered by {smartassembly}"

  /** System.Version, compared component by component. */
  datatype Version = Version(major: int, minor: int, build: int, revision: int)

  predicate VersionLe(a: Version, b: Version)
  {
    a.major < b.major
    || (a.major == b.major && (a.minor < b.minor
    || (a.minor == b.minor && (a.build < b.build
    || (a.build == b.build && a.revision <= b.revision)))))
  }

  /** Version comparison is a total order. */
  lemma VersionLeTotalOrder(a: Version, b: Version, c: Version)
    ensures VersionLe(a, a)
    ensures VersionLe(a, b) || VersionLe(b, a)
    ensures VersionLe(a, b) && VersionLe(b, a) ==> a == b
    ensures VersionLe(a, b) && VersionLe(b, c) ==> VersionLe(a, c)
  {
  }

  /** The last version without a big type. */
  const LAST_WITHOUT_BIG_TYPE := Version(6, 5, 3, 53)

  /** What the rules read from a TypeDef: its namespace and name, visibility, and its members
      (for methods, whether each one is static). */
  datatype TypeDefInfo = TypeDefInfo(
    namespace: string, name: string, isPublic: bool,
    fieldCount: nat, methodIsStatic: seq<bool>, propertyCount: nat, eventCount: nat)

  /** An unnamed, non-public type without fields, methods, properties or events. */
  predicate IsEmptyClass(t: TypeDefInfo)
  {
    t.name == "" && !t.isPublic && t.fieldCount == 0 && |t.methodIsStatic| == 0
    && t.propertyCount == 0 && t.eventCount == 0
  }

  /** detectInternal: 100 when the memory manager was found, plus 10 for the PoweredBy
      attribute. */
  function DetectScore(memoryManagerDetected: bool, foundSmartAssemblyAttribute: bool): (r: int)
    ensures r in {0, 10, 100, 110}
    ensures r >= 100 <==> memoryManagerDetected
    ensures r % 100 == 10 <==> foundSmartAssemblyAttribute
  {
    var val := 0;
    var val := if memoryManagerDetected then val + 100 else val;
    if foundSmartAssemblyAttribute then val + 10 else val
  }

  /** checkTypeIdAttribute, given the field count of the type-id attribute type (None: no such
      type): 1 for one field (1.x), 2 for two (2.x), -1 otherwise. */
  function CheckTypeIdAttribute(typeIdAttributeFields: Option<nat>): (r: int)
    ensures r in {-1, 1, 2}
    ensures r == 1 <==> typeIdAttributeFields == Some(1)
    ensures r == 2 <==> typeIdAttributeFields == Some(2)
  {
    if typeIdAttributeFields.None? then -1
    else if typeIdAttributeFields.value == 1 then 1
    else if typeIdAttributeFields.value == 2 then 2
    else -1
  }

  /** The name and version guessVersion settles on, or None when it leaves them alone. */
  function Guess(poweredBy: Option<string>, proxyCallFixerDetected: bool, emptyClassesEverywhere: bool,
                 typeIdVersion: int, hasModuleCctor: bool): (r: Option<(string, Version)>)
    ensures r.Some? <==> poweredBy == Some(POWERED_BY_5) || poweredBy == Some(POWERED_BY_1_TO_4)
    ensures r.Some? ==> (|r.value.0| > 14 && r.value.0[..14] == THE_NAME + " "
                         && r.value.1 == Version(r.value.0[14] as int - '0' as int, 0, 0, 0))
    ensures r.Some? && poweredBy == Some(POWERED_BY_1_TO_4) ==> 1 <= r.value.1.major <= 4
  {
    if poweredBy == Some(POWERED_BY_5) then Some(("SmartAssembly 5.0/5.1", Version(5, 0, 0, 0)))
    else if poweredBy == Some(POWERED_BY_1_TO_4) then
      if proxyCallFixerDetected || emptyClassesEverywhere then Some(("SmartAssembly 4.x", Version(4, 0, 0, 0)))
      else if typeIdVersion == 2 then Some(("SmartAssembly 2.x", Version(2, 0, 0, 0)))
      else if typeIdVersion == 1 then Some(("SmartAssembly 1.x-2.x", Version(1, 0, 0, 0)))
      else if hasModuleCctor then Some(("SmartAssembly 3.x", Version(3, 0, 0, 0)))
      else Some(("SmartAssembly 1.x-4.x", Version(1, 0, 0, 0)))
    else None
  }

  /** For "{smartassembly}" the tests run in order and the first that holds decides: a later
      test's input cannot change the answer of an earlier one. */
  lemma FirstTestDecides(proxy: bool, empty: bool, ver: int, cctor: bool, ver': int, cctor': bool)
    ensures proxy || empty ==>
      Guess(Some(POWERED_BY_1_TO_4), proxy, empty, ver, cctor) == Guess(Some(POWERED_BY_1_TO_4), proxy, empty, ver', cctor')
      && Guess(Some(POWERED_BY_1_TO_4), proxy, empty, ver, cctor).value.0 == "SmartAssembly 4.x"
    ensures !proxy && !empty && ver in {1, 2} ==>
      Guess(Some(POWERED_BY_1_TO_4), proxy, empty, ver, cctor) == Guess(Some(POWERED_BY_1_TO_4), proxy, empty, ver, cctor')
    ensures !proxy && !empty && ver !in {1, 2} ==>
      Guess(Some(POWERED_BY_1_TO_4), proxy, empty, ver, cctor).value.1.major == (if cctor then 3 else 1)
  {
  }

  /** "Powered by SmartAssembly" decides 5.0/5.1 whatever else the module shows. */
  lemma PoweredBy5Decides(proxy: bool, empty: bool, ver: int, cctor: bool)
    ensures Guess(Some(POWERED_BY_5), proxy, empty, ver, cctor) == Some(("SmartAssembly 5.0/5.1", Version(5, 0, 0, 0)))
  {
  }

  /** Whether a type of the module has the namespace `ns` (the module type excluded). */
  predicate Seen(types: seq<TypeDefInfo>, moduleIndex: int, n: nat, ns: string)
    requires n <= |types|
  {
    exists j :: 0 <= j < n && j != moduleIndex && types[j].namespace == ns
  }

  /** How many empty classes among the first n types (the module type excluded) have
      namespace `ns`. */
  function EmptyCount(types: seq<TypeDefInfo>, moduleIndex: int, n: nat, ns: string): nat
    requires n <= |types|
  {
    if n == 0 then 0
    else
      EmptyCount(types, moduleIndex, n - 1, ns)
      + (if n - 1 != moduleIndex && types[n - 1].namespace == ns && IsEmptyClass(types[n - 1]) then 1 else 0)
  }

  /** A namespace's count is positive exactly when one of its types is an empty class. */
  lemma {:induction false} EmptyCountPositive(types: seq<TypeDefInfo>, moduleIndex: int, n: nat, ns: string)
    requires n <= |types|
    ensures EmptyCount(types, moduleIndex, n, ns) >= 1 <==> HasEmptyClassIn(types[..n], moduleIndex, ns)
  {
    if n > 0 {
      EmptyCountPositive(types, moduleIndex, n - 1, ns);
      var p := types[..n - 1];
      assert types[..n] == p + [types[n - 1]];
      if HasEmptyClassIn(types[..n], moduleIndex, ns) && !HasEmptyClassIn(p, moduleIndex, ns) {
        var j :| 0 <= j < n && j != moduleIndex && types[..n][j].namespace == ns && IsEmptyClass(types[..n][j]);
        assert j == n - 1;
      }
      if HasEmptyClassIn(p, moduleIndex, ns) {
        var j :| 0 <= j < n - 1 && j != moduleIndex && p[j].namespace == ns && IsEmptyClass(p[j]);
        assert types[..n][j] == p[j];
      }
    }
  }

  /** The property hasEmptyClassesInEveryNamespace decides: every namespace of the module's
      types (the module type excluded) holds at least one empty class. */
  predicate EveryNamespaceHasEmptyClass(types: seq<TypeDefInfo>, moduleIndex: int)
  {
    forall i :: 0 <= i < |types| && i != moduleIndex ==> HasEmptyClassIn(types, moduleIndex, types[i].namespace)
  }

  /** Some type of namespace `ns` (the module type excluded) is an empty class. */
  predicate HasEmptyClassIn(types: seq<TypeDefInfo>, moduleIndex: int, ns: string)
  {
    exists j :: 0 <= j < |types| && j != moduleIndex && types[j].namespace == ns && IsEmptyClass(types[j])
  }

  /** What the namespace dictionary holds after the first n types. */
  ghost predicate Tallied(d: Dict<string, int>, types: seq<TypeDefInfo>, moduleIndex: int, n: nat)
    requires n <= |types|
  {
    DistinctKeys(d)
    && forall ns :: Lookup(d, ns) == Expected(types, moduleIndex, n, ns)
  }

  /** The dictionary entry of namespace `ns` after the first n types: absent until a type of
      that namespace has been seen, then the number of its empty classes. */
  function Expected(types: seq<TypeDefInfo>, moduleIndex: int, n: nat, ns: string): Option<int>
    requires n <= |types|
  {
    if Seen(types, moduleIndex, n, ns) then Some(EmptyCount(types, moduleIndex, n, ns) as int) else None
  }

  /** One more non-module type: its namespace is now seen, and counted if the type is empty. */
  lemma TallyStep(types: seq<TypeDefInfo>, moduleIndex: int, n: nat, ns: string)
    requires n < |types|
    ensures Seen(types, moduleIndex, n + 1, ns) <==> Seen(types, moduleIndex, n, ns) || (n != moduleIndex && types[n].namespace == ns)
  {
    if Seen(types, moduleIndex, n + 1, ns) && !(n != moduleIndex && types[n].namespace == ns) {
      var j :| 0 <= j < n + 1 && j != moduleIndex && types[j].namespace == ns;
      assert j < n;
    }
  }

  /** The values of the finished dictionary are all positive exactly when every namespace holds
      an empty class. */
  lemma TalliedValues(d: Dict<string, int>, types: seq<TypeDefInfo>, moduleIndex: int)
    requires Tallied(d, types, moduleIndex, |types|)
    ensures (forall k :: 0 <= k < |d| ==> d[k].1 >= 1) <==> EveryNamespaceHasEmptyClass(types, moduleIndex)
  {
    if forall k :: 0 <= k < |d| ==> d[k].1 >= 1 {
      PositiveValuesEveryNamespace(d, types, moduleIndex);
    }
    if EveryNamespaceHasEmptyClass(types, moduleIndex) {
      EveryNamespacePositiveValues(d, types, moduleIndex);
    }
  }

  lemma PositiveValuesEveryNamespace(d: Dict<string, int>, types: seq<TypeDefInfo>, moduleIndex: int)
    requires Tallied(d, types, moduleIndex, |types|)
    requires forall k :: 0 <= k < |d| ==> d[k].1 >= 1
    ensures EveryNamespaceHasEmptyClass(types, moduleIndex)
  {
    forall i | 0 <= i < |types| && i != moduleIndex
      ensures HasEmptyClassIn(types, moduleIndex, types[i].namespace)
    {
      var ns := types[i].namespace;
      assert Seen(types, moduleIndex, |types|, ns);
      assert Lookup(d, ns) == Expected(types, moduleIndex, |types|, ns);
      LookupIn(d, ns);
      var k :| 0 <= k < |d| && d[k] == (ns, Lookup(d, ns).value);
      EmptyCountPositive(types, moduleIndex, |types|, ns);
      assert types[..|types|] == types;
    }
  }

  lemma EveryNamespacePositiveValues(d: Dict<string, int>, types: seq<TypeDefInfo>, moduleIndex: int)
    requires Tallied(d, types, moduleIndex, |types|)
    requires EveryNamespaceHasEmptyClass(types, moduleIndex)
    ensures forall k :: 0 <= k < |d| ==> d[k].1 >= 1
  {
    forall k | 0 <= k < |d| ensures d[k].1 >= 1 {
      EntryLookup(d, k);
      assert Lookup(d, d[k].0) == Expected(types, moduleIndex, |types|, d[k].0);
      EntryPositive(types, moduleIndex, d[k].0, d[k].1);
    }
  }

  /** Where every namespace holds an empty class, every count is positive. */
  lemma EntryPositive(types: seq<TypeDefInfo>, moduleIndex: int, ns: string, v: int)
    requires EveryNamespaceHasEmptyClass(types, moduleIndex)
    requires Expected(types, moduleIndex, |types|, ns) == Some(v)
    ensures v >= 1
  {
    var n := |types|;
    assert Seen(types, moduleIndex, n, ns);
    var i :| 0 <= i < n && i != moduleIndex && types[i].namespace == ns;
    assert HasEmptyClassIn(types, moduleIndex, ns);
    EmptyCountPositive(types, moduleIndex, n, ns);
    assert types[..n] == types;
  }

  /** One pass of hasEmptyClassesInEveryNamespace's counting loop: the module type is skipped;
      otherwise the type's namespace gets an entry (0 if new) that an empty class increments. */
  method CountType(namespaces: Dict<string, int>, types: seq<TypeDefInfo>, moduleIndex: int, t: nat) returns (d: Dict<string, int>)
    requires t < |types| && Tallied(namespaces, types, moduleIndex, t)
    ensures Tallied(d, types, moduleIndex, t + 1)
  {
    d := namespaces;
    if t == moduleIndex {
      forall ns' ensures Lookup(d, ns') == Expected(types, moduleIndex, t + 1, ns') {
        TallyStep(types, moduleIndex, t, ns');
      }
      return;
    }
    var ns := types[t].namespace;
    if Lookup(d, ns).None? {
      assert !Seen(types, moduleIndex, t, ns);
      assert EmptyCount(types, moduleIndex, t, ns) == 0 by { EmptyCountPositive(types, moduleIndex, t, ns); }
      PutDistinct(d, ns, 0);
      PutLookup(d, ns, 0, ns);
      d := Put(d, ns, 0);
    }
    var d1 := d;
    if IsEmptyClass(types[t]) {
      PutDistinct(d, ns, Lookup(d, ns).value + 1);
      d := Put(d, ns, Lookup(d, ns).value + 1);
    }
    assert Lookup(d1, ns) == Some(EmptyCount(types, moduleIndex, t, ns) as int);
    forall ns' ensures Lookup(d, ns') == Expected(types, moduleIndex, t + 1, ns') {
      TallyStep(types, moduleIndex, t, ns');
      assert Lookup(namespaces, ns') == Expected(types, moduleIndex, t, ns');
      assert EmptyCount(types, moduleIndex, t + 1, ns') == EmptyCount(types, moduleIndex, t, ns') + (if ns' == ns && IsEmptyClass(types[t]) then 1 else 0);
      if ns' != ns {
        PutLookup(namespaces, ns, 0, ns');
        assert Lookup(d1, ns') == Lookup(namespaces, ns');
      }
      if IsEmptyClass(types[t]) {
        PutLookup(d1, ns, Lookup(d1, ns).value + 1, ns');
      }
    }
  }

  /** hasEmptyClassesInEveryNamespace: count the empty classes of each namespace in a
      dictionary, then require every count to be at least one. True for a module without
      types. */
  method HasEmptyClassesInEveryNamespace(types: seq<TypeDefInfo>, moduleIndex: int) returns (r: bool)
    ensures r <==> EveryNamespaceHasEmptyClass(types, moduleIndex)
  {
    var namespaces: Dict<string, int> := [];
    var t := 0;
    while t < |types|
      invariant 0 <= t <= |types|
      invariant Tallied(namespaces, types, moduleIndex, t)
    {
      namespaces := CountType(namespaces, types, moduleIndex, t);
      t := t + 1;
    }
    var k := 0;
    while k < |namespaces|
      invariant 0 <= k <= |namespaces|
      invariant forall k' :: 0 <= k' < k ==> namespaces[k'].1 >= 1
    {
      if namespaces[k].1 < 1 {
        TalliedValues(namespaces, types, moduleIndex);
        return false;
      }
      k := k + 1;
    }
    TalliedValues(namespaces, types, moduleIndex);
    return true;
  }

  /** Whether every method of a type is static. */
  function AllStatic(methodIsStatic: seq<bool>): (r: bool)
    ensures r <==> forall m :: 0 <= m < |methodIsStatic| ==> methodIsStatic[m]
  {
    if |methodIsStatic| == 0 then true
    else methodIsStatic[0] && AllStatic(methodIsStatic[1..])
  }

  /** isBigType: 50 or more methods, all static, no properties or events, at most three fields. */
  function IsBigType(t: TypeDefInfo): (r: bool)
    ensures r <==> (|t.methodIsStatic| >= 50 && t.propertyCount == 0 && t.eventCount == 0 && t.fieldCount <= 3
                    && forall m :: 0 <= m < |t.methodIsStatic| ==> t.methodIsStatic[m])
  {
    if |t.methodIsStatic| < 50 then false
    else if t.propertyCount > 0 || t.eventCount > 0 then false
    else if t.fieldCount > 3 then false
    else AllStatic(t.methodIsStatic)
  }

  function MethodCount(t: TypeDefInfo): nat { |t.methodIsStatic| }

  /** The type findBigType picks among the first n: a big type with the most methods, and the
      first one of those. */
  predicate IsBiggest(types: seq<TypeDefInfo>, n: nat, i: nat)
    requires n <= |types|
  {
    i < n && IsBigType(types[i])
    && (forall j :: 0 <= j < n && IsBigType(types[j]) ==> MethodCount(types[j]) <= MethodCount(types[i]))
    && (forall j :: 0 <= j < i && IsBigType(types[j]) ==> MethodCount(types[j]) < MethodCount(types[i]))
  }

  /** At most one type is the biggest. */
  lemma BiggestUnique(types: seq<TypeDefInfo>, i: nat, j: nat)
    requires IsBiggest(types, |types|, i) && IsBiggest(types, |types|, j)
    ensures i == j
  {
  }

  /** findBigType, as an index into the module's types: none for versions up to 6.5.3.53;
      otherwise the biggest big type, or none when there is no big type. */
  method FindBigType(types: seq<TypeDefInfo>, approxVersion: Version) returns (r: Option<nat>)
    ensures VersionLe(approxVersion, LAST_WITHOUT_BIG_TYPE) ==> r.None?
    ensures !VersionLe(approxVersion, LAST_WITHOUT_BIG_TYPE) && r.None? ==> forall j :: 0 <= j < |types| ==> !IsBigType(types[j])
    ensures r.Some? ==> IsBiggest(types, |types|, r.value)
  {
    if VersionLe(approxVersion, LAST_WITHOUT_BIG_TYPE) {
      return None;
    }
    var bigType: Option<nat> := None;
    var t := 0;
    while t < |types|
      invariant 0 <= t <= |types|
      invariant bigType.None? ==> forall j :: 0 <= j < t ==> !IsBigType(types[j])
      invariant bigType.Some? ==> IsBiggest(types, t, bigType.value)
    {
      if IsBigType(types[t]) {
        if bigType.None? || MethodCount(types[t]) > MethodCount(types[bigType.value]) {
          bigType := Some(t);
        }
      }
      t := t + 1;
    }
    return bigType;
  }

  /** The deobfuscator's version state. The results of the scanners it consults (memory
      manager, proxy call fixer, the type-id attribute, the module's .cctor) and of
      findSmartAssemblyAttributes are given at construction. */
  class SmartAssemblyDeobfuscator {
    var foundVersion: bool
    var approxVersion: Version
    var obfuscatorName: string
    const poweredByAttributeString: Option<string>
    const foundSmartAssemblyAttribute: bool
    const memoryManagerDetected: bool
    const proxyCallFixerDetected: bool
    const typeIdAttributeFields: Option<nat>
    const hasModuleCctor: bool
    const types: seq<TypeDefInfo>
    const moduleIndex: int

    constructor(poweredBy: Option<string>, foundAttribute: bool, memoryManager: bool, proxyCallFixer: bool,
                typeIdFields: Option<nat>, cctor: bool, types: seq<TypeDefInfo>, moduleIndex: int)
      ensures !foundVersion && approxVersion == Version(0, 0, 0, 0) && obfuscatorName == THE_NAME
      ensures poweredByAttributeString == poweredBy && foundSmartAssemblyAttribute == foundAttribute
      ensures memoryManagerDetected == memoryManager && proxyCallFixerDetected == proxyCallFixer
      ensures typeIdAttributeFields == typeIdFields && hasModuleCctor == cctor
      ensures this.types == types && this.moduleIndex == moduleIndex
    {
      foundVersion := false;
      approxVersion := Version(0, 0, 0, 0);
      obfuscatorName := THE_NAME;
      poweredByAttributeString := poweredBy;
      foundSmartAssemblyAttribute := foundAttribute;
      memoryManagerDetected := memoryManager;
      proxyCallFixerDetected := proxyCallFixer;
      typeIdAttributeFields := typeIdFields;
      hasModuleCctor := cctor;
      this.types := types;
      this.moduleIndex := moduleIndex;
    }

    function DetectInternal(): (r: int)
      ensures r == DetectScore(memoryManagerDetected, foundSmartAssemblyAttribute)
    {
      DetectScore(memoryManagerDetected, foundSmartAssemblyAttribute)
    }

    /** The ObfuscatorName setter: a name set here is a version found. */
    method SetObfuscatorName(value: string)
      modifies this
      ensures obfuscatorName == value && foundVersion && approxVersion == old(approxVersion)
    {
      obfuscatorName := value;
      foundVersion := true;
    }

    /** The name and version guessVersion would settle on. */
    function Guessed(): Option<(string, Version)>
    {
      Guess(poweredByAttributeString, proxyCallFixerDetected, EveryNamespaceHasEmptyClass(types, moduleIndex),
            CheckTypeIdAttribute(typeIdAttributeFields), hasModuleCctor)
    }

    method GuessVersion()
      modifies this
      ensures Guessed().None? ==> foundVersion == old(foundVersion) && approxVersion == old(approxVersion) && obfuscatorName == old(obfuscatorName)
      ensures Guessed().Some? ==> foundVersion && (obfuscatorName, approxVersion) == Guessed().value
    {
      if poweredByAttributeString == Some(POWERED_BY_5) {
        SetObfuscatorName("SmartAssembly 5.0/5.1");
        approxVersion := Version(5, 0, 0, 0);
        return;
      }
      if poweredByAttributeString == Some(POWERED_BY_1_TO_4) {
        var empty := false;
        if !proxyCallFixerDetected {
          empty := HasEmptyClassesInEveryNamespace(types, moduleIndex);
        }
        if proxyCallFixerDetected || empty {
          SetObfuscatorName("SmartAssembly 4.x");
          approxVersion := Version(4, 0, 0, 0);
          return;
        }
        var ver := CheckTypeIdAttribute(typeIdAttributeFields);
        if ver == 2 {
          SetObfuscatorName("SmartAssembly 2.x");
          approxVersion := Version(2, 0, 0, 0);
          return;
        }
        if ver == 1 {
          SetObfuscatorName("SmartAssembly 1.x-2.x");
          approxVersion := Version(1, 0, 0, 0);
          return;
        }
        if hasModuleCctor {
          SetObfuscatorName("SmartAssembly 3.x");
          approxVersion := Version(3, 0, 0, 0);
          return;
        }
        SetObfuscatorName("SmartAssembly 1.x-4.x");
        approxVersion := Version(1, 0, 0, 0);
        return;
      }
    }

    /** The end of scanForObfuscator: the version is guessed only when none was found. */
    method FinishScan()
      modifies this
      ensures old(foundVersion) ==> foundVersion && approxVersion == old(approxVersion) && obfuscatorName == old(obfuscatorName)
      ensures !old(foundVersion) && Guessed().Some? ==> foundVersion && (obfuscatorName, approxVersion) == Guessed().value
      ensures !old(foundVersion) && Guessed().None? ==> !foundVersion && approxVersion == old(approxVersion) && obfuscatorName == old(obfuscatorName)
    {
      if !foundVersion {
        GuessVersion();
      }
    }

    method FindBigTypeOfModule() returns (r: Option<nat>)
      ensures VersionLe(approxVersion, LAST_WITHOUT_BIG_TYPE) ==> r.None?
      ensures !VersionLe(approxVersion, LAST_WITHOUT_BIG_TYPE) && r.None? ==> forall j :: 0 <= j < |types| ==> !IsBigType(types[j])
      ensures r.Some? ==> IsBiggest(types, |types|, r.value)
    {
      r := FindBigType(types, approxVersion);
    }
  }
}
