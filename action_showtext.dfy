/**
 * The "showtext" action (rex_yform_action_showtext): after a form was sent it
 * appends a text to the form's output: the configured text, translated,
 * optionally HTML-escaped, wrapped in a prefix and a suffix, with every
 * `###name###` placeholder replaced by the submitted value of that field.
 */
module ActionShowtext {
  import opened PhpArray
  import opened PhpString
  import opened FormParams

  /**
   * `$this->getElement($i)` on the action's definition: the i-th element, or
   * "" (PHP's null) when the definition is shorter.
   */
  function Element(elements: seq<string>, i: nat): string
  {
    if i < |elements| then elements[i] else ""
  }

  /** The placeholder that stands for the value of field `key`. */
  function Placeholder(key: string): string
  {
    "###" + key + "###"
  }

  /**
   * The foreign text functions the action calls: `rex_i18n::translate`,
   * `htmlspecialchars` and `nl2br`.
   */
  datatype TextFunctions = TextFunctions(translate: string -> string, specialChars: string -> string, lineBreaks: string -> string)

  /** Element 5 selects plain text (loosely equal to "0"): the text is escaped. */
  predicate Escaped(elements: seq<string>)
  {
    LooseEqualsStr(Element(elements, 5), "0")
  }

  /** The configured text (element 2), translated, and escaped when it is plain text. */
  function Body(elements: seq<string>, f: TextFunctions): string
  {
    var text := f.translate(Element(elements, 2));
    if Escaped(elements) then f.lineBreaks(f.specialChars(text)) else text
  }

  /** The body between the prefix (element 3) and the suffix (element 4). */
  function Wrapped(elements: seq<string>, f: TextFunctions): string
  {
    Element(elements, 3) + Body(elements, f) + Element(elements, 4)
  }

  /**
   * The placeholders of `keys` replaced one after another, in order, each over
   * the whole text the previous replacements left.
   */
  function Substitute(text: string, keys: seq<string>, pool: map<string, string>): string
    requires forall k :: k in keys ==> k in pool
  {
    if keys == [] then text
    else
      var last := keys[|keys| - 1];
      Replace(Placeholder(last), pool[last], Substitute(text, keys[..|keys| - 1], pool))
  }

  /** Substituting two runs of keys is substituting the first run, then the second. */
  lemma {:induction false} SubstituteSplit(text: string, keys1: seq<string>, keys2: seq<string>, pool: map<string, string>)
    requires forall k :: k in keys1 + keys2 ==> k in pool
    ensures Substitute(text, keys1 + keys2, pool) == Substitute(Substitute(text, keys1, pool), keys2, pool)
    decreases |keys2|
  {
    if keys2 != [] {
      var keys := keys1 + keys2;
      assert keys[..|keys| - 1] == keys1 + keys2[..|keys2| - 1];
      assert keys[|keys| - 1] == keys2[|keys2| - 1];
      SubstituteSplit(text, keys1, keys2[..|keys2| - 1], pool);
    } else {
      assert keys1 + keys2 == keys1;
    }
  }

  /** A text that holds none of the placeholders comes through substitution unchanged. */
  lemma {:induction false} SubstituteAbsent(text: string, keys: seq<string>, pool: map<string, string>)
    requires forall k :: k in keys ==> k in pool
    requires forall k, i: nat :: k in keys ==> !OccursAt(text, Placeholder(k), i)
    ensures Substitute(text, keys, pool) == text
  {
    if keys != [] {
      var last := keys[|keys| - 1];
      SubstituteAbsent(text, keys[..|keys| - 1], pool);
      assert last in keys;
      ReplaceAbsent(Placeholder(last), pool[last], text);
    }
  }

  /** The text the action appends: the wrapped body with the pool substituted in pool order. */
  function Assembled(elements: seq<string>, f: TextFunctions, pool: Arr<string, string>): string
    requires pool.Valid()
  {
    Substitute(Wrapped(elements, f), pool.keys, pool.vals)
  }

  /**
   * Without placeholders to fill in (an empty pool, or a wrapped text holding
   * none of the pool's placeholders) the action appends exactly prefix, body
   * and suffix, and the body is escaped iff element 5 selects plain text.
   */
  lemma AssembledWithoutPlaceholders(elements: seq<string>, f: TextFunctions, pool: Arr<string, string>)
    requires pool.Valid()
    requires forall k, i: nat :: k in pool.keys ==> !OccursAt(Wrapped(elements, f), Placeholder(k), i)
    ensures Assembled(elements, f, pool) == Element(elements, 3) + Body(elements, f) + Element(elements, 4)
    ensures Escaped(elements) ==> Body(elements, f) == f.lineBreaks(f.specialChars(f.translate(Element(elements, 2))))
    ensures !Escaped(elements) ==> Body(elements, f) == f.translate(Element(elements, 2))
  {
    SubstituteAbsent(Wrapped(elements, f), pool.keys, pool.vals);
  }

  /** One showtext action of a form: its definition elements and the form's parameters. */
  class ShowtextAction {
    const elements: seq<string>
    const params: Params

    constructor(elements: seq<string>, params: Params)
      ensures this.elements == elements && this.params == params
    {
      this.elements := elements;
      this.params := params;
    }

    /** `executeAction`: assembles the text and appends it to the form's output. */
    method ExecuteAction(f: TextFunctions)
      requires params.emailPool.Valid()
      modifies params`output
      ensures params.output == old(params.output) + Assembled(elements, f, params.emailPool)
    {
      var text := Element(elements, 2);
      text := f.translate(text);
      if Escaped(elements) {
        text := f.lineBreaks(f.specialChars(text));
      }
      text := Element(elements, 3) + text + Element(elements, 4);
      text := SubstitutePool(text, params.emailPool);
      params.output := params.output + text;
    }
  }

  /** The `foreach` over the value pool: one `str_replace` per entry, in pool order. */
  method SubstitutePool(text: string, pool: Arr<string, string>) returns (r: string)
    requires pool.Valid()
    ensures r == Substitute(text, pool.keys, pool.vals)
  {
    r := text;
    var i := 0;
    while i < |pool.keys|
      invariant 0 <= i <= |pool.keys|
      invariant r == Substitute(text, pool.keys[..i], pool.vals)
    {
      var search := pool.keys[i];
      var replace := pool.vals[search];
      assert pool.keys[..i + 1][..i] == pool.keys[..i];
      r := Replace("###" + search + "###", replace, r);
      i := i + 1;
    }
    assert pool.keys[..i] == pool.keys;
  }
}
