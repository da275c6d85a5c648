/** The server's two keyword tests on the latest user message: the table of
    canned replies that short-circuit the request, and the list of words that
    switch document retrieval on. */
module Routing {
  import opened Text
  import opened Wrappers

  /** Words that make a question about the indexed documents (`DOCUMENT_KEYWORDS`). */
  const DocumentKeywords: seq<string> := [
    "arquitectura", "g\U{F3}tica",
    "veterinaria", "vet", "animales",
    "league of legends", "lol", "tft", "builds", "campeones"
  ]

  /** An entry of the canned-reply table: a name, its trigger words, and the
      fixed text its `execute` returns. */
  datatype CannedFunction = CannedFunction(name: string, keywords: seq<string>, reply: string)

  const Greeting := "\U{A1}Hola Pablo! Encantado de saludarte \U{1F60A}"
  const Weather := "El tiempo en Badajoz es soleado con 25\U{B0}C. Si me equivoco, mira por la ventana \U{1F609}"

  /** The canned-reply table (`funciones`), in table order. */
  const Funciones: seq<CannedFunction> := [
    CannedFunction("saluda", ["saludame", "hola"], Greeting),
    CannedFunction("tiempo", ["tiempo", "clima"], Weather)
  ]

  /** `keys.some(k => s.includes(k))`: some key occurs in `s`. */
  function SomeIncluded(s: string, keys: seq<string>): (r: bool)
    ensures r <==> exists j, i :: 0 <= j < |keys| && OccursAt(s, keys[j], i)
  {
    if |keys| == 0 then false
    else
      var rest := SomeIncluded(s, keys[1..]);
      assert forall j :: 1 <= j < |keys| ==> keys[j] == keys[1..][j - 1];
      assert forall j :: 0 <= j < |keys| - 1 ==> keys[1..][j] == keys[j + 1];
      Contains(s, keys[0]) || rest
  }

  /** `conversacion(question)`: the lower-cased question contains some
      lower-cased document keyword. */
  function Conversacion(question: string): (r: bool)
    ensures r <==> (exists j, i :: 0 <= j < |DocumentKeywords|
                     && OccursAt(Lower(question), Lower(DocumentKeywords[j]), i))
  {
    var lowered := seq(|DocumentKeywords|, j requires 0 <= j < |DocumentKeywords| => Lower(DocumentKeywords[j]));
    assert forall j :: 0 <= j < |lowered| ==> lowered[j] == Lower(DocumentKeywords[j]);
    SomeIncluded(Lower(question), lowered)
  }

  /** An entry fires when one of its words occurs in the lower-cased message
      (the words themselves are not lower-cased). */
  predicate Fires(f: CannedFunction, lowered: string) {
    SomeIncluded(lowered, f.keywords)
  }

  /** The position of the first entry of `table` that fires, if any. */
  function FirstFiring(table: seq<CannedFunction>, lowered: string): (r: Option<nat>)
    ensures r.Some? ==> r.value < |table| && Fires(table[r.value], lowered)
    ensures r.Some? ==> forall j :: 0 <= j < r.value ==> !Fires(table[j], lowered)
    ensures r.None? <==> forall j :: 0 <= j < |table| ==> !Fires(table[j], lowered)
  {
    if |table| == 0 then None
    else if Fires(table[0], lowered) then Some(0)
    else
      assert forall j :: 1 <= j < |table| ==> table[j] == table[1..][j - 1];
      match FirstFiring(table[1..], lowered)
      case None => None
      case Some(k) => Some(k + 1)
  }

  /** `detectFunction(message)`: `funciones.find(...)` over the lower-cased message. */
  function DetectFunction(message: string): (r: Option<CannedFunction>)
    ensures r.None? <==> forall j :: 0 <= j < |Funciones| ==> !Fires(Funciones[j], Lower(message))
    ensures r.Some? ==> (exists j :: 0 <= j < |Funciones| && r.value == Funciones[j]
                          && Fires(Funciones[j], Lower(message))
                          && forall j' :: 0 <= j' < j ==> !Fires(Funciones[j'], Lower(message)))
  {
    match FirstFiring(Funciones, Lower(message))
    case None => None
    case Some(k) => Some(Funciones[k])
  }

  /** Lower-casing twice is lower-casing once. */
  lemma LowerIdempotent(s: string)
    ensures Lower(Lower(s)) == Lower(s)
  {
  }

  /** The retrieval test ignores case: it gives the same answer on a question
      and on its lower-cased form. */
  lemma ConversacionIgnoresCase(question: string)
    ensures Conversacion(Lower(question)) == Conversacion(question)
  {
    LowerIdempotent(question);
  }

  /** A greeting containing "hola" gets the canned greeting. */
  lemma HolaIsGreeting()
    ensures DetectFunction("hola") == Some(Funciones[0])
  {
    assert Lower("hola") == "hola";
    assert Contains("hola", "hola");
  }
}
