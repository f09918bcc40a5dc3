/**
 * The "empty" validator (rex_yform_validate_empty): of the fields it names, at
 * least one must be filled in; when none is, every named field is marked with
 * the error class and receives the configured message.
 */
module ValidateEmpty {
  import opened Wrappers
  import opened PhpArray
  import opened PhpString
  import opened FormParams

  /**
   * What the validator sees of one entry of the form's object list: whether
   * it passes `isObject` (is a form value object), its id, its name and its
   * current value (a missing value reads as "").
   */
  datatype FormObject = FormObject(isValue: bool, id: int, name: string, value: string)

  /** The placeholder of the message that receives the field's label. */
  const FieldnamePlaceholder: string := "{{fieldname}}"

  /** `in_array($name, $names)` with PHP's loose string comparison. */
  predicate InNames(name: string, names: seq<string>)
  {
    exists n :: n in names && LooseEqualsStr(name, n)
  }

  /** An object the rule looks at: a value object whose name is listed. */
  predicate Considered(o: FormObject, names: seq<string>)
  {
    o.isValue && InNames(o.name, names)
  }

  /** Some object the rule looks at carries a non-empty value. */
  predicate AnyFilled(objs: seq<FormObject>, names: seq<string>)
  {
    exists i :: 0 <= i < |objs| && Considered(objs[i], names) && objs[i].value != ""
  }

  /** The objects the rule looks at, in form order. */
  function Flagged(objs: seq<FormObject>, names: seq<string>): (r: seq<FormObject>)
    ensures |r| <= |objs|
    ensures forall o :: o in r <==> o in objs && Considered(o, names)
  {
    if objs == [] then []
    else
      var last := objs[|objs| - 1];
      var init := Flagged(objs[..|objs| - 1], names);
      assert objs == objs[..|objs| - 1] + [last];
      if Considered(last, names) then init + [last] else init
  }

  /** The ids of `os`, in order. */
  function Ids(os: seq<FormObject>): (r: seq<int>)
    ensures |r| == |os|
    ensures forall i :: 0 <= i < |os| ==> r[i] == os[i].id
  {
    if os == [] then [] else [os[0].id] + Ids(os[1..])
  }

  /** Assigns `v` to each id of `ids` in turn (`$a[$id] = $v` for every id). */
  function Mark(a: Arr<int, string>, ids: seq<int>, v: string): (r: Arr<int, string>)
    requires a.Valid()
    ensures r.Valid()
  {
    if ids == [] then a else Mark(a, ids[..|ids| - 1], v).Put(ids[|ids| - 1], v)
  }

  /** Marking keeps the existing entries in their positions and appends the new ids. */
  lemma {:induction false} MarkKeys(a: Arr<int, string>, ids: seq<int>, v: string)
    requires a.Valid()
    ensures |a.keys| <= |Mark(a, ids, v).keys| && Mark(a, ids, v).keys[..|a.keys|] == a.keys
  {
    if ids != [] {
      MarkKeys(a, ids[..|ids| - 1], v);
    }
  }

  /** After marking, the marked ids carry `v` and every other entry is left alone. */
  lemma {:induction false} MarkEffect(a: Arr<int, string>, ids: seq<int>, v: string)
    requires a.Valid()
    ensures var r := Mark(a, ids, v);
      && (forall k :: k in r.vals <==> k in a.vals || k in ids)
      && (forall k :: k in ids ==> r.vals[k] == v)
      && (forall k :: k in a.vals && k !in ids ==> r.vals[k] == a.vals[k])
  {
    if ids != [] {
      var last := ids[|ids| - 1];
      MarkEffect(a, ids[..|ids| - 1], v);
      assert forall k :: k in ids <==> k in ids[..|ids| - 1] || k == last;
    }
  }

  /** The ids of `os` are exactly the ids its objects carry. */
  lemma IdsOf(os: seq<FormObject>)
    ensures forall k :: k in Ids(os) <==> exists o :: o in os && o.id == k
  {
    var r := Ids(os);
    forall k | k in r ensures exists o :: o in os && o.id == k {
      var i :| 0 <= i < |r| && r[i] == k;
      assert os[i] in os;
    }
  }

  /** The message a marked field receives: the configured one with the label filled in. */
  function Message(messageElement: string, fieldLabel: string, parse: string -> string): string
  {
    Replace(FieldnamePlaceholder, fieldLabel, parse(messageElement))
  }

  /** `params['warning']` and `params['warning_messages']` together. */
  datatype Warnings = Warnings(warning: Arr<int, string>, messages: Arr<int, string>)

  /**
   * The rule fires: the name list is not empty and none of the objects it
   * looks at is filled in.
   */
  predicate Fires(nameElement: string, objs: seq<FormObject>)
  {
    nameElement != "" && !AnyFilled(objs, Explode(",", nameElement))
  }

  /**
   * What `enterObject` makes of the two warning arrays: nothing unless the
   * rule fires; otherwise every listed value object is marked with
   * `errorClass` and given the message.
   */
  function Validate(nameElement: string, messageElement: string, fieldLabel: string, parse: string -> string,
                    errorClass: string, objs: seq<FormObject>, before: Warnings): (r: Warnings)
    requires before.warning.Valid() && before.messages.Valid()
    ensures r.warning.Valid() && r.messages.Valid()
    ensures !Fires(nameElement, objs) ==> r == before
  {
    if !Fires(nameElement, objs) then before
    else
      var ids := Ids(Flagged(objs, Explode(",", nameElement)));
      Warnings(Mark(before.warning, ids, errorClass), Mark(before.messages, ids, Message(messageElement, fieldLabel, parse)))
  }

  /**
   * Marking the objects the rule looks at: exactly their ids are added, each
   * carries `v`, every other entry is left alone.
   */
  lemma MarkFlagged(a: Arr<int, string>, objs: seq<FormObject>, names: seq<string>, v: string)
    requires a.Valid()
    ensures var r := Mark(a, Ids(Flagged(objs, names)), v);
      && (forall k :: k in r.vals <==> k in a.vals || exists o :: o in objs && Considered(o, names) && o.id == k)
      && (forall o :: o in objs && Considered(o, names) ==> o.id in r.vals && r.vals[o.id] == v)
      && (forall k :: k in a.vals && (forall o :: o in objs && Considered(o, names) ==> o.id != k) ==> r.vals[k] == a.vals[k])
  {
    IdsOf(Flagged(objs, names));
    MarkEffect(a, Ids(Flagged(objs, names)), v);
  }

  /**
   * When the rule fires, every listed value object gets the error class and
   * the message, exactly their ids are added to both arrays, and every other
   * entry is left alone.
   */
  lemma ValidateEffect(nameElement: string, messageElement: string, fieldLabel: string, parse: string -> string,
                       errorClass: string, objs: seq<FormObject>, before: Warnings)
    requires before.warning.Valid() && before.messages.Valid()
    requires Fires(nameElement, objs)
    ensures var r := Validate(nameElement, messageElement, fieldLabel, parse, errorClass, objs, before);
      var names := Explode(",", nameElement);
      && (forall o :: o in objs && Considered(o, names) ==>
            && o.id in r.warning.vals && r.warning.vals[o.id] == errorClass
            && o.id in r.messages.vals && r.messages.vals[o.id] == Message(messageElement, fieldLabel, parse))
      && (forall k :: k in r.warning.vals <==> k in before.warning.vals || exists o :: o in objs && Considered(o, names) && o.id == k)
      && (forall k :: k in r.messages.vals <==> k in before.messages.vals || exists o :: o in objs && Considered(o, names) && o.id == k)
      && (forall k :: k in before.warning.vals && (forall o :: o in objs && Considered(o, names) ==> o.id != k) ==>
            r.warning.vals[k] == before.warning.vals[k])
      && (forall k :: k in before.messages.vals && (forall o :: o in objs && Considered(o, names) ==> o.id != k) ==>
            r.messages.vals[k] == before.messages.vals[k])
  {
    var names := Explode(",", nameElement);
    MarkFlagged(before.warning, objs, names, errorClass);
    MarkFlagged(before.messages, objs, names, Message(messageElement, fieldLabel, parse));
  }

  /** Marking one more id of a list is one more assignment. */
  lemma MarkStep(a: Arr<int, string>, ids: seq<int>, j: nat, v: string)
    requires a.Valid() && j < |ids|
    ensures Mark(a, ids[..j + 1], v) == Mark(a, ids[..j], v).Put(ids[j], v)
  {
    assert ids[..j + 1][..j] == ids[..j];
  }

  /** Marking ids that already carry the value changes nothing, not even the order. */
  lemma {:induction false} MarkPresent(a: Arr<int, string>, ids: seq<int>, v: string)
    requires a.Valid()
    requires forall k :: k in ids ==> k in a.vals && a.vals[k] == v
    ensures Mark(a, ids, v) == a
  {
    if ids != [] {
      var last := ids[|ids| - 1];
      assert last in ids;
      assert forall k :: k in ids[..|ids| - 1] ==> k in ids;
      MarkPresent(a, ids[..|ids| - 1], v);
      MarkEffect(a, ids[..|ids| - 1], v);
      assert a.vals[last := v] == a.vals;
    }
  }

  /** Running the rule a second time over the same form changes nothing more. */
  lemma ValidateIdempotent(nameElement: string, messageElement: string, fieldLabel: string, parse: string -> string,
                           errorClass: string, objs: seq<FormObject>, before: Warnings)
    requires before.warning.Valid() && before.messages.Valid()
    ensures var once := Validate(nameElement, messageElement, fieldLabel, parse, errorClass, objs, before);
      Validate(nameElement, messageElement, fieldLabel, parse, errorClass, objs, once) == once
  {
    var once := Validate(nameElement, messageElement, fieldLabel, parse, errorClass, objs, before);
    if Fires(nameElement, objs) {
      var ids := Ids(Flagged(objs, Explode(",", nameElement)));
      ValidateEffect(nameElement, messageElement, fieldLabel, parse, errorClass, objs, before);
      IdsOf(Flagged(objs, Explode(",", nameElement)));
      MarkPresent(once.warning, ids, errorClass);
      MarkPresent(once.messages, ids, Message(messageElement, fieldLabel, parse));
    }
  }

  /**
   * The first loop of `enterObject`: the objects the rule looks at, in form
   * order, or `None` as soon as one of them is filled in.
   */
  method CollectWarningObjects(objects: seq<FormObject>, names: seq<string>) returns (r: Option<seq<FormObject>>)
    ensures r.None? <==> AnyFilled(objects, names)
    ensures r.Some? ==> r.value == Flagged(objects, names)
  {
    var warningObjects: seq<FormObject> := [];
    var i := 0;
    while i < |objects|
      invariant 0 <= i <= |objects|
      invariant warningObjects == Flagged(objects[..i], names)
      invariant !AnyFilled(objects[..i], names)
    {
      var o := objects[i];
      if o.isValue && InNames(o.name, names) {
        if o.value != "" {
          assert Considered(objects[i], names);
          return None;
        }
        warningObjects := warningObjects + [o];
      }
      assert objects[..i + 1][..i] == objects[..i];
      i := i + 1;
    }
    assert objects[..i] == objects;
    return Some(warningObjects);
  }

  /** One validator of a form: its `name` and `message` elements and the label of its value object. */
  class EmptyValidator {
    /** The `name` element: the names of the fields, comma-separated. */
    const nameElement: string
    /** The `message` element, before placeholders are resolved. */
    const messageElement: string
    /** The `label` element of the value object the rule is attached to. */
    const fieldLabel: string
    /** The form's shared parameters. */
    const params: Params

    constructor(nameElement: string, messageElement: string, fieldLabel: string, params: Params)
      ensures this.nameElement == nameElement && this.messageElement == messageElement
      ensures this.fieldLabel == fieldLabel && this.params == params
    {
      this.nameElement := nameElement;
      this.messageElement := messageElement;
      this.fieldLabel := fieldLabel;
      this.params := params;
    }

    /**
     * `enterObject`: runs the rule over the form's objects. `parse` stands
     * for the placeholder expansion the message goes through first.
     */
    method EnterObject(objects: seq<FormObject>, parse: string -> string)
      requires params.Valid()
      modifies params`warning, params`warningMessages
      ensures params.Valid()
      ensures Warnings(params.warning, params.warningMessages)
        == Validate(nameElement, messageElement, fieldLabel, parse, params.errorClass, objects,
                    Warnings(old(params.warning), old(params.warningMessages)))
    {
      if nameElement == "" {
        return;
      }
      var names := Explode(",", nameElement);
      var warningObjects := CollectWarningObjects(objects, names);
      if warningObjects.None? {
        return;
      }
      MarkWarnings(warningObjects.value, parse);
    }

    /** The second loop of `enterObject`: marks each collected object and gives it the message. */
    method MarkWarnings(warningObjects: seq<FormObject>, parse: string -> string)
      requires params.Valid()
      modifies params`warning, params`warningMessages
      ensures params.Valid()
      ensures params.warning == Mark(old(params.warning), Ids(warningObjects), params.errorClass)
      ensures params.warningMessages == Mark(old(params.warningMessages), Ids(warningObjects), Message(messageElement, fieldLabel, parse))
    {
      ghost var ids := Ids(warningObjects);
      ghost var msg0 := Message(messageElement, fieldLabel, parse);
      var cls := params.errorClass;
      var warning, messages := params.warning, params.warningMessages;
      var j := 0;
      while j < |warningObjects|
        invariant 0 <= j <= |warningObjects|
        invariant warning == Mark(old(params.warning), ids[..j], cls)
        invariant messages == Mark(old(params.warningMessages), ids[..j], msg0)
        invariant params.warning == warning && params.warningMessages == messages
      {
        var msg := parse(messageElement);
        var id := warningObjects[j].id;
        MarkStep(old(params.warning), ids, j, cls);
        MarkStep(old(params.warningMessages), ids, j, msg0);
        warning := warning.Put(id, cls);
        messages := messages.Put(id, Replace(FieldnamePlaceholder, fieldLabel, msg));
        params.warning := warning;
        params.warningMessages := messages;
        j := j + 1;
      }
      assert ids[..j] == ids;
    }
  }
}
