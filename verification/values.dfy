/** The two message types, STRING and LIST, with their serialisers: text,
    JSON array, emptiness and the lookup of a type by name. */
module Values {
  import opened Wrappers
  import opened Text
  import StringUtils

  datatype Kind = STRING | LIST {
    /** The upper-cased simple class name the type is registered under. */
    function Name(): string {
      match this
      case STRING => "STRING"
      case LIST => "LIST"
    }
  }

  /** A stored message value: one string or a list of strings. */
  datatype Value = Str(s: string) | Lst(items: seq<string>) {
    function Kind(): Kind {
      if Str? then STRING else LIST
    }
  }

  /** A JSON array whose elements are all JSON strings. */
  type JsonArray = seq<string>

  /** `toJson`: a one-element array for a string, the elements in order for a
      list. */
  function ToJson(v: Value): (r: JsonArray)
    ensures v.Str? ==> r == [v.s]
    ensures v.Lst? ==> r == v.items
  {
    match v
    case Str(s) => [s]
    case Lst(items) => items
  }

  /** `fromJson`: STRING takes the first element and fails on an empty
      array; LIST takes every element. */
  function FromJson(k: Kind, a: JsonArray): (r: Option<Value>)
    ensures r.Some? ==> r.value.Kind() == k
    ensures r.None? <==> k == STRING && a == []
  {
    match k
    case STRING => if a == [] then None else Some(Str(a[0]))
    case LIST => Some(Lst(a))
  }

  /** The JSON form loses nothing: reading a value back with its own type
      gives the value. */
  lemma JsonRoundTrip(v: Value)
    ensures FromJson(v.Kind(), ToJson(v)) == Some(v)
  {
  }

  /** A STRING read from a longer array keeps only the first element, so
      the round trip from the array side holds only for one-element arrays. */
  lemma StringJsonKeepsFirst(a: JsonArray)
    requires a != []
    ensures ToJson(FromJson(STRING, a).value) == a <==> |a| == 1
  {
    if ToJson(FromJson(STRING, a).value) == a {
      assert |[a[0]]| == 1;
    }
  }

  /** `Type.isEmpty`: a missing value, a blank string or an empty list. */
  predicate IsEmpty(v: Option<Value>) {
    match v
    case None => true
    case Some(Str(s)) => IsBlank(s)
    case Some(Lst(items)) => items == []
  }

  /** `Type.toString`: a string as is, a list joined by new lines. */
  function ToText(v: Value): (r: string)
    ensures v.Str? ==> r == v.s
    ensures v.Lst? ==> r == StringUtils.FromList(v.items, StringUtils.NEW_LINE, true)
  {
    match v
    case Str(s) => s
    case Lst(items) => Join(items, "\n")
  }

  /** `Type.fromString`: a string as is, a list of one element. */
  function FromText(k: Kind, s: string): (r: Value)
    ensures r.Kind() == k
    ensures k == STRING ==> r == Str(s)
    ensures k == LIST ==> r == Lst([s])
  {
    match k
    case STRING => Str(s)
    case LIST => Lst([s])
  }

  /** Text read into either type prints back as the same text. */
  lemma TextRoundTrip(k: Kind, s: string)
    ensures ToText(FromText(k, s)) == s
  {
  }

  /** A list prints back to itself only when splitting is not needed: a list
      of several lines is not recovered from its text. */
  lemma ListTextLosesStructure()
    ensures FromText(LIST, ToText(Lst(["a", "b"]))) != Lst(["a", "b"])
  {
    assert ToText(Lst(["a", "b"])) == "a\nb";
  }

  /** `grabTypeByName`: upper-cases the name, then looks it up. */
  function GrabTypeByName(s: string): (r: Option<Kind>)
    ensures r.Some? <==> Upper(s) == "STRING" || Upper(s) == "LIST"
    ensures r.Some? ==> Upper(s) == r.value.Name()
  {
    if Upper(s) == "STRING" then Some(STRING)
    else if Upper(s) == "LIST" then Some(LIST)
    else None
  }

  /** Every type is found under its own name, whatever the case. */
  lemma GrabTypeByOwnName(k: Kind)
    ensures GrabTypeByName(k.Name()) == Some(k)
    ensures GrabTypeByName(Lower(k.Name())) == Some(k)
  {
    UpperOfUpper(k.Name());
    UpperOfLower(k.Name());
  }
}
