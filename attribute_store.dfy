/**
 * The attribute stores of nodes, edges and graphs (the `Attributes` and
 * `AttributesAware` traits): an insertion-ordered map from attribute name
 * to value, with `setAttribute`, `getAttribute`, and the magic `setX`/`getX`
 * methods of `Attributes::__call`.
 *
 * PHP stores `new Attribute($name, $value)` under `$name`, so the key of a
 * stored attribute is always the name it is stored under; the store keeps
 * just the value.
 */
module AttributeStore {
  import opened Results
  import opened PhpStrings
  import PhpArrays
  import opened DotAttribute

  type Store = PhpArrays.OrderedMap<string, string>

  /** The invariant of every store: no name is stored twice. */
  predicate Valid(s: Store) {
    PhpArrays.DistinctKeys(s)
  }

  predicate Has(s: Store, name: string) {
    PhpArrays.HasKey(s, name)
  }

  /**
   * `setAttribute`: the entry for `name` is replaced where it stands, or
   * appended when `name` is new.
   */
  function SetAttribute(s: Store, name: string, value: string): (r: Store)
    ensures Valid(s) ==> Valid(r)
    ensures Has(r, name)
  {
    var r := PhpArrays.Put(s, name, value);
    assert Valid(s) ==> Valid(r) by {
      if Valid(s) {
        PhpArrays.PutKeepsDistinct(s, name, value);
      }
    }
    assert exists i :: 0 <= i < |r| && r[i].0 == name by {
      if PhpArrays.HasKey(s, name) {
        var i :| 0 <= i < |s| && s[i].0 == name;
        assert r[i].0 == name;
      } else {
        assert r[|s|].0 == name;
      }
    }
    r
  }

  /**
   * `getAttribute`: the attribute stored under `name`, or `AttributeNotFound`
   * naming it.
   */
  function GetAttribute(s: Store, name: string): (r: Result<Attr>)
    ensures r.Ok? <==> Has(s, name)
    ensures r.Err? ==> r.error == AttributeNotFound(name)
    ensures r.Ok? ==> r.value.key == name && exists i :: 0 <= i < |s| && s[i] == (name, r.value.value)
  {
    match PhpArrays.Get(s, name)
    case None => Err(AttributeNotFound(name))
    case Some(v) => Ok(Attr(name, v))
  }

  /** After `setAttribute(name, v)`, `getAttribute(name)` is the attribute `name=v`. */
  lemma SetThenGet(s: Store, name: string, value: string)
    requires Valid(s)
    ensures GetAttribute(SetAttribute(s, name, value), name) == Ok(Attr(name, value))
  {
    PhpArrays.PutGetSame(s, name, value);
  }

  /** `setAttribute(name, v)` leaves what every other name reads unchanged. */
  lemma SetLeavesOthers(s: Store, name: string, value: string, other: string)
    requires Valid(s) && other != name
    ensures GetAttribute(SetAttribute(s, name, value), other) == GetAttribute(s, other)
  {
    PhpArrays.PutGetOther(s, name, value, other);
  }

  /**
   * Where the entry lands: a name already stored keeps its slot and every
   * other entry keeps its place; a new name goes last.
   */
  lemma SetPlacement(s: Store, name: string, value: string)
    requires Valid(s)
    ensures !Has(s, name) ==> SetAttribute(s, name, value) == s + [(name, value)]
    ensures forall i :: 0 <= i < |s| && s[i].0 == name ==>
      SetAttribute(s, name, value) == s[i := (name, value)]
  {
    PhpArrays.PutPlacement(s, name, value);
  }

  /** The attribute lines of a store, in insertion order. */
  function Texts(s: Store): (r: seq<string>)
    ensures |r| == |s|
    ensures forall i :: 0 <= i < |s| ==> r[i] == AttributeText(s[i].0, s[i].1)
  {
    if s == [] then [] else [AttributeText(s[0].0, s[0].1)] + Texts(s[1..])
  }

  lemma {:induction false} TextsAppend(s: Store, e: (string, string))
    ensures Texts(s + [e]) == Texts(s) + [AttributeText(e.0, e.1)]
  {
    if s == [] {
      assert s + [e] == [e];
    } else {
      assert (s + [e])[0] == s[0];
      assert (s + [e])[1..] == s[1..] + [e];
      TextsAppend(s[1..], e);
    }
  }

  lemma TextsUpdate(s: Store, i: nat, e: (string, string))
    requires i < |s|
    ensures Texts(s[i := e]) == Texts(s)[i := AttributeText(e.0, e.1)]
  {
    var a := Texts(s[i := e]);
    var b := Texts(s)[i := AttributeText(e.0, e.1)];
    forall j | 0 <= j < |s|
      ensures a[j] == b[j]
    {
    }
  }

  /**
   * Re-setting an attribute rewrites its own line in place (so a `label`
   * set first stays on the first line); a new attribute adds a last line.
   */
  lemma TextsAfterSet(s: Store, name: string, value: string)
    requires Valid(s)
    ensures !Has(s, name) ==> Texts(SetAttribute(s, name, value)) == Texts(s) + [AttributeText(name, value)]
    ensures forall i :: 0 <= i < |s| && s[i].0 == name ==>
      Texts(SetAttribute(s, name, value)) == Texts(s)[i := AttributeText(name, value)]
  {
    SetPlacement(s, name, value);
    if !Has(s, name) {
      TextsAppend(s, (name, value));
    }
    forall i | 0 <= i < |s| && s[i].0 == name
      ensures Texts(SetAttribute(s, name, value)) == Texts(s)[i := AttributeText(name, value)]
    {
      TextsUpdate(s, i, (name, value));
    }
  }

  lemma TextsOfLongerPrefix(s: Store, i: nat)
    requires i < |s|
    ensures Texts(s[..i + 1]) == Texts(s[..i]) + [AttributeText(s[i].0, s[i].1)]
  {
    assert s[..i + 1] == s[..i] + [s[i]];
    TextsAppend(s[..i], s[i]);
  }

  /**
   * The `foreach` that renders a store: one attribute line per entry, in
   * insertion order.
   */
  method Lines(s: Store) returns (lines: seq<string>)
    ensures lines == Texts(s)
  {
    lines := [];
    var i := 0;
    while i < |s|
      invariant 0 <= i <= |s|
      invariant lines == Texts(s[..i])
    {
      TextsOfLongerPrefix(s, i);
      lines := lines + [AttributeText(s[i].0, s[i].1)];
      i := i + 1;
    }
    assert s[..i] == s;
  }

  /** What a magic call hands back to its caller. */
  datatype Outcome =
    | ReturnedSelf
    | ReturnedAttribute(attr: Attr)
    | ReturnedNull
    | Threw(error: Failure)

  /** `normalizeKey`: `lcfirst`, so only the first letter is lower-cased. */
  function NormalizeKey(key: string): (r: string)
    ensures |r| == |key|
    ensures |key| > 0 ==> r[0] == LowerChar(key[0]) && r[1..] == key[1..]
  {
    LowerFirst(key)
  }

  /** The attribute name a magic `setX`/`getX` addresses: `lcfirst(substr($name, 3))`. */
  function MagicKey(methodName: string): string {
    NormalizeKey(SubstrFrom(methodName, 3))
  }

  /**
   * `Attributes::__call` with the first argument already cast to a string:
   * the new store and what the call returns.
   */
  function Call(s: Store, methodName: string, arg: string): (r: (Store, Outcome))
    ensures Valid(s) ==> Valid(r.0)
    ensures r.0 != s ==> StartsWithIgnoreCase(methodName, "set")
  {
    var key := MagicKey(methodName);
    if StartsWithIgnoreCase(methodName, "set") then (SetAttribute(s, key, arg), ReturnedSelf)
    else if StartsWithIgnoreCase(methodName, "get") then
      (s, match GetAttribute(s, key)
          case Ok(a) => ReturnedAttribute(a)
          case Err(e) => Threw(e))
    else (s, ReturnedNull)
  }

  lemma {:induction false} PrefixIgnoresCase(x: string, p: string, q: string)
    requires |p| == |q| && Lower(p) == Lower(q)
    ensures StartsWithIgnoreCase(p + x, q)
  {
    assert (p + x)[..|q|] == p;
  }

  /**
   * A magic setter `setX(v)` (any case for `set`) is `setAttribute(lcfirst(X), v)`
   * and returns the object itself.
   */
  lemma MagicSetIsSetAttribute(s: Store, prefix: string, x: string, v: string)
    requires |prefix| == 3 && Lower(prefix) == "set"
    ensures Call(s, prefix + x, v) == (SetAttribute(s, NormalizeKey(x), v), ReturnedSelf)
  {
    PrefixIgnoresCase(x, prefix, "set");
    assert SubstrFrom(prefix + x, 3) == x;
  }

  /**
   * A magic getter `getX()` reads `getAttribute(lcfirst(X))`: the attribute
   * when it is present, `AttributeNotFound` otherwise, and the store is untouched.
   */
  lemma MagicGetIsGetAttribute(s: Store, prefix: string, x: string, v: string)
    requires |prefix| == 3 && Lower(prefix) == "get"
    ensures Call(s, prefix + x, v).0 == s
    ensures Has(s, NormalizeKey(x)) ==>
      Call(s, prefix + x, v).1 == ReturnedAttribute(GetAttribute(s, NormalizeKey(x)).value)
    ensures !Has(s, NormalizeKey(x)) ==>
      Call(s, prefix + x, v).1 == Threw(AttributeNotFound(NormalizeKey(x)))
  {
    PrefixIgnoresCase(x, prefix, "get");
    assert SubstrFrom(prefix + x, 3) == x;
    assert !StartsWithIgnoreCase(prefix + x, "set") by {
      assert (prefix + x)[..3] == prefix;
      assert Lower(prefix)[0] == 'g';
    }
  }

  /** A method name not starting with `set` or `get` returns null and changes nothing. */
  lemma OtherCallsDoNothing(s: Store, methodName: string, v: string)
    requires !StartsWithIgnoreCase(methodName, "set") && !StartsWithIgnoreCase(methodName, "get")
    ensures Call(s, methodName, v) == (s, ReturnedNull)
  {
  }

  /**
   * A magic set followed by the matching magic get returns the attribute
   * just set, under the `lcfirst` of the suffix.
   */
  lemma MagicSetThenGet(s: Store, x: string, v: string, w: string)
    requires Valid(s)
    ensures var s' := Call(s, "set" + x, v).0;
      Call(s', "get" + x, w) == (s', ReturnedAttribute(Attr(NormalizeKey(x), v)))
  {
    MagicSetIsSetAttribute(s, "set", x, v);
    var s' := SetAttribute(s, NormalizeKey(x), v);
    SetThenGet(s, NormalizeKey(x), v);
    MagicGetIsGetAttribute(s', "get", x, w);
  }

  /**
   * `setMainShape('box')` and `setAttribute('mainShape', 'box')` write the
   * same entry, which `getMainShape()` then reads.
   */
  lemma MainShapeExample(s: Store)
    requires Valid(s)
    ensures Call(s, "setMainShape", "box").0 == SetAttribute(s, "mainShape", "box")
    ensures Call(SetAttribute(s, "mainShape", "box"), "getMainShape", "").1 ==
      ReturnedAttribute(Attr("mainShape", "box"))
  {
    assert "setMainShape" == "set" + "MainShape";
    assert "getMainShape" == "get" + "MainShape";
    assert NormalizeKey("MainShape") == "mainShape";
    MagicSetThenGet(s, "MainShape", "box", "");
  }

  /** `fooBar('baz')` is not a magic accessor: it returns null. */
  lemma FooBarExample(s: Store)
    ensures Call(s, "fooBar", "baz") == (s, ReturnedNull)
  {
    assert "fooBar"[..3] == "foo";
    assert Lower("foo")[0] == 'f';
  }
}
