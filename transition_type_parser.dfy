/**
 * The transition-type registry: for each named `TransitionType` element, the ordered
 * list of its valid `HashKey` values; a type with no valid value is never registered.
 */
module TransitionTypeParsing {

  import opened Wrappers
  import opened Text
  import opened OrderedMaps
  import opened Xml

  /** `validate_hashkey`: the regular expression `[A-Fa-f0-9]+`, matched in full. */
  predicate ValidateHashkey(hashkey: string): (ok: bool)
    ensures ok ==> |hashkey| > 0 && IsStripped(hashkey)
  {
    |hashkey| > 0 && forall k :: 0 <= k < |hashkey| ==> IsHexDigit(hashkey[k])
  }

  lemma ValidateHashkeyExamples()
    ensures ValidateHashkey("AB12") && ValidateHashkey("ab12") && ValidateHashkey("0")
    ensures !ValidateHashkey("") && !ValidateHashkey("AG") && !ValidateHashkey("0x1") && !ValidateHashkey("A B")
  {
    assert !IsHexDigit("AG"[1]);
    assert !IsHexDigit("0x1"[1]);
    assert !IsHexDigit("A B"[1]);
  }

  /** Uppercasing a valid hashkey gives a valid hashkey of uppercase digits `0-9A-F`. */
  lemma UpperHashkey(hashkey: string)
    requires ValidateHashkey(hashkey)
    ensures ValidateHashkey(Upper(hashkey))
    ensures forall k :: 0 <= k < |hashkey| ==> IsUpperHexDigit(Upper(hashkey)[k])
  {
  }

  /** Two valid hashkeys joined make a valid hashkey. */
  lemma ValidateConcat(a: string, b: string)
    requires ValidateHashkey(a) && ValidateHashkey(b)
    ensures ValidateHashkey(a + b)
  {
    assert forall k :: |a| <= k < |a + b| ==> (a + b)[k] == b[k - |a|];
  }

  /** `name -> list of hashkeys`, in registration order. */
  type Registry = OrderedMap<seq<string>>

  /** Every registered name is non-empty and maps to a non-empty list of valid hashkeys. */
  ghost predicate RegistryValid(reg: Registry) {
    && reg.Valid()
    && forall n :: n in reg.entries ==> n != "" && reg.entries[n] != [] && AllValid(reg.entries[n])
  }

  predicate AllValid(hashkeys: seq<string>) {
    forall k :: 0 <= k < |hashkeys| ==> ValidateHashkey(hashkeys[k])
  }

  /** The stripped `value` attributes of a sequence of `HashKey` elements. */
  function ValueAttributes(hashkeys: seq<Element>): (r: seq<string>)
    ensures |r| == |hashkeys|
    ensures forall i :: 0 <= i < |hashkeys| ==> r[i] == Attribute(hashkeys[i], "value")
  {
    if hashkeys == [] then []
    else ValueAttributes(hashkeys[..|hashkeys| - 1]) + [Attribute(hashkeys[|hashkeys| - 1], "value")]
  }

  lemma {:induction false} ValuesConcat(a: seq<Element>, b: seq<Element>)
    ensures ValueAttributes(a + b) == ValueAttributes(a) + ValueAttributes(b)
  {
    if b != [] {
      var b' := b[..|b| - 1];
      assert (a + b)[..|a + b| - 1] == a + b';
      ValuesConcat(a, b');
    } else {
      assert a + b == a;
    }
  }

  /** The values that are non-empty and valid, in order. */
  function KeepValid(values: seq<string>): (r: seq<string>)
    ensures AllValid(r)
    ensures |r| <= |values|
  {
    if values == [] then []
    else
      var value := values[|values| - 1];
      KeepValid(values[..|values| - 1]) + (if value != "" && ValidateHashkey(value) then [value] else [])
  }

  /** The `value` of each `HashKey` element that is non-empty and valid, in order. */
  function KeptHashkeys(hashkeys: seq<Element>): (r: seq<string>)
    ensures AllValid(r)
    ensures |r| <= |hashkeys|
  {
    KeepValid(ValueAttributes(hashkeys))
  }

  lemma KeptStep(hashkeys: seq<Element>, j: nat)
    requires j < |hashkeys|
    ensures var value := Attribute(hashkeys[j], "value");
            KeptHashkeys(hashkeys[..j + 1]) ==
              KeptHashkeys(hashkeys[..j]) + (if value != "" && ValidateHashkey(value) then [value] else [])
  {
    assert hashkeys[..j + 1][..j] == hashkeys[..j];
    var value := Attribute(hashkeys[j], "value");
    assert ValueAttributes(hashkeys[..j + 1]) == ValueAttributes(hashkeys[..j]) + [value];
    KeepValidConcat(ValueAttributes(hashkeys[..j]), [value]);
    assert [value][..0] == [];
  }

  /** Filtering works element by element: it distributes over concatenation. */
  lemma {:induction false} KeepValidConcat(a: seq<string>, b: seq<string>)
    ensures KeepValid(a + b) == KeepValid(a) + KeepValid(b)
  {
    if b != [] {
      var b' := b[..|b| - 1];
      assert (a + b)[..|a + b| - 1] == a + b';
      KeepValidConcat(a, b');
    } else {
      assert a + b == a;
    }
  }

  lemma KeptConcat(a: seq<Element>, b: seq<Element>)
    ensures KeptHashkeys(a + b) == KeptHashkeys(a) + KeptHashkeys(b)
  {
    ValuesConcat(a, b);
    KeepValidConcat(ValueAttributes(a), ValueAttributes(b));
  }

  /** A value is kept exactly when it occurs and is valid. */
  lemma {:induction false} KeepValidMembers(values: seq<string>, value: string)
    ensures value in KeepValid(values) <==> ValidateHashkey(value) && value in values
  {
    if values != [] {
      var prefix := values[..|values| - 1];
      KeepValidMembers(prefix, value);
      assert values == prefix + [values[|values| - 1]];
    }
  }

  /**
   * A string is kept exactly when some `HashKey` element carries it as a valid value;
   * an invalid value is dropped without affecting the others.
   */
  lemma KeptMembers(hashkeys: seq<Element>, value: string)
    ensures value in KeptHashkeys(hashkeys) <==> ValidateHashkey(value) && value in ValueAttributes(hashkeys)
  {
    KeepValidMembers(ValueAttributes(hashkeys), value);
  }

  /** One `HashKey` element contributes its value alone, when valid, and nothing otherwise. */
  lemma KeptSingle(h: Element)
    ensures KeptHashkeys([h]) == if ValidateHashkey(Attribute(h, "value")) then [Attribute(h, "value")] else []
  {
    assert ValueAttributes([h]) == [] + [Attribute(h, "value")];
  }

  /**
   * The registration one `TransitionType` element yields, or None: its stripped `name`
   * is empty, it has no `HashKeys` child, or none of its hashkeys is valid.
   */
  function TypeEntry(e: Element): (r: Option<(string, seq<string>)>)
    ensures r.Some? ==> r.value.0 != "" && r.value.1 != [] && AllValid(r.value.1)
  {
    var name := Attribute(e, "name");
    if name == "" then None
    else
      match Find(e, "HashKeys")
      case None => None
      case Some(hashkeysElement) =>
        var hashkeys := KeptHashkeys(FindAll(hashkeysElement, "HashKey"));
        if hashkeys == [] then None else Some((name, hashkeys))
  }

  /** The effect of one `TransitionType` element on the registry. */
  function Register(reg: Registry, e: Element): Registry {
    match TypeEntry(e)
    case None => reg
    case Some((name, hashkeys)) => reg.Put(name, hashkeys)
  }

  /** The effect of a sequence of elements, in document order. */
  function RegisterAll(reg: Registry, es: seq<Element>): Registry {
    if es == [] then reg else Register(RegisterAll(reg, es[..|es| - 1]), es[|es| - 1])
  }

  lemma RegisterAllStep(reg: Registry, es: seq<Element>, i: nat)
    requires i < |es|
    ensures RegisterAll(reg, es[..i + 1]) == Register(RegisterAll(reg, es[..i]), es[i])
  {
    assert es[..i + 1][..i] == es[..i];
  }

  /** Registration keeps every list non-empty and every hashkey valid. */
  lemma {:induction false} RegisterAllValid(reg: Registry, es: seq<Element>)
    requires RegistryValid(reg)
    ensures RegistryValid(RegisterAll(reg, es))
  {
    if es != [] {
      RegisterAllValid(reg, es[..|es| - 1]);
    }
  }

  /**
   * An element registers a type exactly when it has a non-empty name, a `HashKeys`
   * child and at least one valid hashkey, and then its list is the kept hashkeys.
   */
  lemma TypeEntryCases(e: Element)
    ensures TypeEntry(e).Some? <==>
              && Attribute(e, "name") != ""
              && Find(e, "HashKeys").Some?
              && KeptHashkeys(FindAll(Find(e, "HashKeys").value, "HashKey")) != []
    ensures TypeEntry(e).Some? ==>
              TypeEntry(e).value == (Attribute(e, "name"), KeptHashkeys(FindAll(Find(e, "HashKeys").value, "HashKey")))
  {
  }

  /**
   * Registering an element overwrites the list of the name it carries and keeps every
   * other name's list; an element that does not register leaves the registry as it was.
   */
  lemma RegisterEffect(reg: Registry, e: Element, name: string)
    ensures TypeEntry(e).None? ==> Register(reg, e) == reg
    ensures TypeEntry(e).Some? && TypeEntry(e).value.0 == name ==>
              name in Register(reg, e).entries && Register(reg, e).entries[name] == TypeEntry(e).value.1
    ensures (TypeEntry(e).None? || TypeEntry(e).value.0 != name) ==>
              (name in Register(reg, e).entries <==> name in reg.entries)
              && (name in reg.entries ==> Register(reg, e).entries[name] == reg.entries[name])
  {
  }

  /** The registered list of `name`, or `[]` when `name` is not registered. */
  function HashkeysFor(reg: Registry, name: string): seq<string> {
    if name in reg.entries then reg.entries[name] else []
  }

  /** Python's `TransitionTypeParser`: its `transition_types` dict. */
  class TransitionTypeParser {
    var transitionTypes: Registry

    ghost predicate Valid()
      reads this
    {
      RegistryValid(transitionTypes)
    }

    /** Builds the registry from the root element of the transition-type document. */
    constructor (root: Element)
      ensures Valid()
      ensures transitionTypes == RegisterAll(EmptyMap(), FindAll(root, "TransitionType"))
    {
      transitionTypes := EmptyMap();
      new;
      ParseTransitionTypes(root);
    }

    /** `parse_transition_types`: registers every `TransitionType` child of `root`. */
    method ParseTransitionTypes(root: Element)
      requires Valid()
      modifies this
      ensures Valid()
      ensures transitionTypes == RegisterAll(old(transitionTypes), FindAll(root, "TransitionType"))
    {
      var elements := FindAll(root, "TransitionType");
      ghost var start := transitionTypes;
      for i := 0 to |elements|
        invariant transitionTypes == RegisterAll(start, elements[..i])
      {
        RegisterAllStep(start, elements, i);
        AddTransitionType(elements[i]);
      }
      assert elements[..|elements|] == elements;
      RegisterAllValid(start, elements);
    }

    /** The body of the loop in `parse_transition_types`: one `TransitionType` element. */
    method AddTransitionType(transitionType: Element)
      modifies this
      ensures transitionTypes == Register(old(transitionTypes), transitionType)
    {
      var name := Attribute(transitionType, "name");
      if name == "" {
        return;
      }
      var hashkeysElement := Find(transitionType, "HashKeys");
      if hashkeysElement.Some? {
        var hashkeys := CollectHashkeys(FindAll(hashkeysElement.value, "HashKey"));
        if hashkeys != [] {
          transitionTypes := transitionTypes.Put(name, hashkeys);
        }
      }
    }

    /** The inner loop: the list of valid `value`s, appended in document order. */
    static method CollectHashkeys(elements: seq<Element>) returns (hashkeys: seq<string>)
      ensures hashkeys == KeptHashkeys(elements)
    {
      hashkeys := [];
      for j := 0 to |elements|
        invariant hashkeys == KeptHashkeys(elements[..j])
      {
        KeptStep(elements, j);
        var value := Attribute(elements[j], "value");
        if value != "" {
          if ValidateHashkey(value) {
            hashkeys := hashkeys + [value];
          }
        }
      }
      assert elements[..|elements|] == elements;
    }

    /** `get_transition_types`: the registered names, each once, in registration order. */
    function GetTransitionTypes(): (names: seq<string>)
      reads this
      requires Valid()
      ensures forall n :: n in names <==> n in transitionTypes.entries
      ensures forall i, j :: 0 <= i < j < |names| ==> names[i] != names[j]
      ensures names == transitionTypes.keys
    {
      transitionTypes.keys
    }

    /**
     * `get_hashkeys_by_transition_type`: the registered list, or `[]` for a name that
     * is not registered; so the result is non-empty exactly for registered names.
     */
    function GetHashkeysByTransitionType(name: string): (hashkeys: seq<string>)
      reads this
      requires Valid()
      ensures hashkeys != [] <==> name in transitionTypes.entries
      ensures AllValid(hashkeys)
      ensures name in transitionTypes.entries ==> hashkeys == transitionTypes.entries[name]
      ensures name !in transitionTypes.entries ==> hashkeys == []
    {
      HashkeysFor(transitionTypes, name)
    }
  }
}
