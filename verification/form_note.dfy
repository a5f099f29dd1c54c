/**
 The backend form-note advisor: below a stored form, a warning is shown when
 no field of the form is marked as sender e-mail or sender name, and the
 warning additionally flags field markers that are empty or repeated.

 The host framework's services are inputs: whether the "replace IRRE with
 element browser" feature is active, PHP's `is_numeric` on strings, the
 repository query returning the field rows of a form uid, and the template
 rendering of the warning's view model.
 */
module FormNote {
  import opened Php

  /** Host services the advisor consults. */
  datatype Host = Host(
    replaceIrreActive: bool,
    isNumericString: string -> bool,
    fieldsOf: int -> seq<Row>)

  /** The view model handed to the warning template (labels aside). */
  datatype NoteView = NoteView(mutedNote: bool, form: Row, markerWarning: bool)

  /** `is_numeric($v)`: integers are numeric, null is not, strings ask the host predicate. */
  predicate IsNumeric(v: Value, host: Host)
  {
    match v
    case Null => false
    case Int(_) => true
    case Str(s) => host.isNumericString(s)
  }

  /** `(int)$row['uid']`, the identifier the repository is queried with. */
  function FormUid(form: Row): int
  {
    IntCast(Get(form, "uid"))
  }

  /** The field rows the repository returns for the form's uid. */
  function FormFields(form: Row, host: Host): seq<Row>
  {
    host.fieldsOf(FormUid(form))
  }

  /** One field row has `sender_email` or `sender_name` whose int value is 1. */
  predicate MarksSender(field: Row)
  {
    ("sender_email" in field && IntCast(field["sender_email"]) == 1)
    || ("sender_name" in field && IntCast(field["sender_name"]) == 1)
  }

  /** Some field of the form is marked as sender e-mail or sender name. */
  predicate AnySenderField(fields: seq<Row>)
  {
    exists i :: 0 <= i < |fields| && MarksSender(fields[i])
  }

  /**
   Scans the field rows and stops at the first one that is marked as sender
   e-mail or sender name.
   */
  method SenderEmailOrSenderNameSet(fields: seq<Row>) returns (found: bool)
    ensures found <==> AnySenderField(fields)
    ensures |fields| == 0 ==> !found
  {
    for i := 0 to |fields|
      invariant forall k :: 0 <= k < i ==> !MarksSender(fields[k])
    {
      if MarksSender(fields[i]) {
        return true;
      }
    }
    return false;
  }

  /** `$field['marker']`, null when the column is missing. */
  function Marker(field: Row): Value
  {
    Get(field, "marker")
  }

  /** No field has a marker that PHP's `empty()` calls empty. */
  predicate AllMarkersFilled(fields: seq<Row>)
  {
    forall k :: 0 <= k < |fields| ==> !IsEmpty(Marker(fields[k]))
  }

  /** No two fields have markers with the same string form. */
  predicate MarkersUnique(fields: seq<Row>)
  {
    forall i, j :: 0 <= i < j < |fields| ==> StringForm(Marker(fields[i])) != StringForm(Marker(fields[j]))
  }

  /** The warning about markers: some marker is empty or two markers coincide. */
  predicate MarkerWarning(fields: seq<Row>)
  {
    !(AllMarkersFilled(fields) && MarkersUnique(fields))
  }

  /**
   Collects the markers of the field rows, giving up at the first empty one,
   and accepts the list when `array_unique` removes nothing from it.
   */
  method HasFormUniqueAndFilledFieldMarkers(fields: seq<Row>) returns (ok: bool)
    ensures ok <==> AllMarkersFilled(fields) && MarkersUnique(fields)
    ensures (exists k :: 0 <= k < |fields| && IsEmpty(Marker(fields[k]))) ==> !ok
    ensures |fields| == 0 ==> ok
  {
    var markers: seq<Value> := [];
    for i := 0 to |fields|
      invariant |markers| == i
      invariant forall k :: 0 <= k < i ==> markers[k] == Marker(fields[k])
      invariant forall k :: 0 <= k < i ==> !IsEmpty(Marker(fields[k]))
    {
      if IsEmpty(Marker(fields[i])) {
        return false;
      }
      markers := markers + [Marker(fields[i])];
    }
    ok := ArrayUnique(markers) == Entries(markers);
    ArrayUniqueIdentical(markers);
    assert DistinctStrings(markers) <==> MarkersUnique(fields);
  }

  /**
   The form is stored under a non-empty numeric uid and the element-browser
   replacement of IRRE is off.
   */
  predicate CanBeRendered(form: Row, host: Host)
    ensures CanBeRendered(form, host) ==> "uid" in form && form["uid"] != Null
    ensures IsEmpty(Get(form, "uid")) ==> !CanBeRendered(form, host)
    ensures !IsNumeric(Get(form, "uid"), host) ==> !CanBeRendered(form, host)
    ensures host.replaceIrreActive ==> !CanBeRendered(form, host)
  {
    !IsEmpty(Get(form, "uid")) && IsNumeric(Get(form, "uid"), host) && !host.replaceIrreActive
  }

  /** The warning is muted when the form's `note` column is set and its int value is 1. */
  predicate IsNoteMuted(form: Row)
  {
    IsSet(form, "note") && IntCast(form["note"]) == 1
  }

  /** The `isset` guard adds nothing: a null `note` casts to 0 anyway. */
  lemma NoteMutedIff(form: Row)
    ensures IsNoteMuted(form) <==> IntCast(Get(form, "note")) == 1
    ensures IsNoteMuted(form) ==> !IsEmpty(Get(form, "note"))
  {
    if IsEmpty(Get(form, "note")) {
      IntCastOfEmpty(Get(form, "note"));
    }
  }

  /** Decides whether the warning is shown: renderable and no sender field. */
  method IsShowNote(form: Row, host: Host) returns (show: bool)
    ensures show <==> CanBeRendered(form, host) && !AnySenderField(FormFields(form, host))
  {
    if !CanBeRendered(form, host) {
      return false;
    }
    var senderSet := SenderEmailOrSenderNameSet(FormFields(form, host));
    show := !senderSet;
  }

  /**
   The field's markup: empty unless the note is shown; when shown, the
   rendered view model, whose marker warning is raised exactly when some
   marker is empty or two markers coincide.
   */
  method ShowNote(form: Row, host: Host, render: NoteView -> string) returns (html: string)
    ensures html ==
      if CanBeRendered(form, host) && !AnySenderField(FormFields(form, host))
      then render(NoteView(IsNoteMuted(form), form, MarkerWarning(FormFields(form, host))))
      else ""
  {
    var show := IsShowNote(form, host);
    if show {
      var unique := HasFormUniqueAndFilledFieldMarkers(FormFields(form, host));
      html := render(NoteView(IsNoteMuted(form), form, !unique));
    } else {
      html := "";
    }
  }
}
