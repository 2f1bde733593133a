/** `presence` (src/transformation/presence.ts) and the predicates built on
    it or beside it: `isPresent`, `isPresentString`, `isPresentNumber`
    (src/validation). */
module Present {
  import opened JsText
  import opened JsTypes

  /** A property key of an object, with its enumerability. */
  datatype Property = StringKey(name: string, enumerable: bool) | SymbolKey(id: nat, enumerable: bool)

  /** The JavaScript values these utilities tell apart. `PlainObject` is an
      object whose prototype is `Object.prototype`, given by its own
      properties; `Collection` is a `Set` or a `Map`, given by its size;
      `Other` is every other object (functions, Dates, class instances,
      objects without a prototype). */
  datatype JsValue =
    | Undefined
    | Null
    | Boolean(b: bool)
    | Number(n: Num)
    | Str(s: string)
    | Array(elements: seq<JsValue>)
    | PlainObject(properties: seq<Property>)
    | Collection(size: nat)
    | Other(id: nat)

  /** `Object.keys(o).length > 0`: an own enumerable string key exists. */
  predicate HasEnumerableKey(properties: seq<Property>) {
    exists i :: 0 <= i < |properties| && properties[i].StringKey? && properties[i].enumerable
  }

  /** `isPresentString(value)`: a string with a character outside `\s`,
      that is, one that trimming does not empty. */
  predicate IsPresentString(value: JsValue): (r: bool)
    ensures r <==> value.Str? && Trim(value.s) != []
  {
    if value.Str? then
      NonBlankTrim(value.s);
      HasNonWhitespace(value.s)
    else false
  }

  /** `isPresentNumber(value)`: a number other than NaN, so the two
      infinities are present numbers. */
  predicate IsPresentNumber(value: JsValue): (r: bool)
    ensures r <==> value.Number? && (value.n.IsFinite() || value.n == PosInf || value.n == NegInf)
  {
    value.Number? && !value.n.IsNaN()
  }

  /** `presence(value)`: the value itself when it is present, `null`
      otherwise. */
  function Presence(value: JsValue): (r: JsValue)
    ensures r == Null || r == value
    ensures value.Undefined? || value.Null? ==> r == Null
    ensures value.Str? ==> (r == value <==> IsPresentString(value))
    ensures value.Number? ==> (r == value <==> IsPresentNumber(value))
    ensures value.Array? ==> (r == value <==> |value.elements| > 0)
    ensures value.PlainObject? ==> (r == value <==> HasEnumerableKey(value.properties))
    ensures value.Collection? ==> (r == value <==> value.size > 0)
    ensures value.Boolean? || value.Other? ==> r == value
  {
    match value
    case Undefined => Null
    case Null => Null
    case Str(_) => if IsPresentString(value) then value else Null
    case Number(_) => if IsPresentNumber(value) then value else Null
    case Array(elements) => if |elements| > 0 then value else Null
    case PlainObject(properties) => if HasEnumerableKey(properties) then value else Null
    case Collection(size) => if size > 0 then value else Null
    case _ => value
  }

  /** `isPresent(value)`: `presence(value) != null`, which is stricter than
      "neither null nor undefined": blank strings, NaN and empty arrays,
      objects and collections are not present either. */
  predicate IsPresent(value: JsValue): (r: bool)
    ensures r <==> match value
      case Undefined => false
      case Null => false
      case Str(s) => HasNonWhitespace(s)
      case Number(n) => !n.IsNaN()
      case Array(elements) => |elements| > 0
      case PlainObject(properties) => HasEnumerableKey(properties)
      case Collection(size) => size > 0
      case _ => true
  {
    Presence(value) != Null
  }

  /** Applying `presence` twice changes nothing. */
  lemma PresenceIdempotent(value: JsValue)
    ensures Presence(Presence(value)) == Presence(value)
    ensures IsPresent(value) <==> Presence(value) == value && value != Null
  {
  }

  /** Some values other than `null` and `undefined` are not present, so
      `isPresent` is stricter than its documentation says. */
  lemma IsPresentStricterThanDefined()
    ensures !IsPresent(Str(" ")) && !IsPresent(Number(NaN)) && !IsPresent(Array([]))
    ensures IsPresent(Boolean(false)) && IsPresent(Number(Finite(0.0)))
  {
    assert AllWhitespace(" ") by {
      assert forall i :: 0 <= i < |" "| ==> " "[i] == ' ';
    }
    TrimBlank(" ");
  }

  /** A string has a character other than white space exactly when
      trimming leaves something. */
  lemma {:induction false} NonBlankTrim(s: string)
    ensures HasNonWhitespace(s) <==> Trim(s) != []
  {
    if HasNonWhitespace(s) {
      var t := TrimStart(s);
      var k := |s| - |t|;
      var i :| 0 <= i < |s| && !IsWhitespace(s[i]);
      assert forall j :: 0 <= j < k ==> s[..k][j] == s[j];
      assert k <= i;
      assert t != [] && !IsWhitespace(t[0]);
      var r := TrimEnd(t);
      assert !AllWhitespace(t);
    } else {
      assert AllWhitespace(s);
      TrimBlank(s);
    }
  }
}
