/**
 * Turning the loaded corpus into training input: `prepare_training_data`
 * (src/train_model_old.py) with its text and label key precedence, and
 * `extract_texts_from_data` (src/train_model_incremental.py, copied
 * unchanged into src/train_model.py).
 *
 * The items are JSON values as `json.load` gives them; a text or a label is
 * whatever value sits under its key, not necessarily a string.
 */
module TrainingData {
  import opened Text
  import Json

  // ---------------------------------------------------------------------
  // prepare_training_data

  predicate IsDict(v: Json.Value) {
    v.Obj?
  }

  /** A string value longer than 10 characters. */
  predicate IsLongString(v: Json.Value) {
    v.Str? && |v.s| > 10
  }

  /** The first value, in entry order, that is a string longer than 10
      characters. */
  function FirstLongString(entries: seq<(string, Json.Value)>): (r: Option<string>)
    ensures r.None? <==> forall k :: 0 <= k < |entries| ==> !IsLongString(entries[k].1)
    ensures r.Some? ==> exists k :: 0 <= k < |entries| && entries[k].1 == Json.Str(r.value) && |r.value| > 10 &&
                          forall j :: 0 <= j < k ==> !IsLongString(entries[j].1)
  {
    if |entries| == 0 then None
    else if IsLongString(entries[0].1) then Some(entries[0].1.s)
    else
      var rest := FirstLongString(entries[1..]);
      assert forall k :: 0 < k < |entries| ==> entries[k] == entries[1..][k - 1];
      assert rest.Some? ==> exists k :: 0 <= k < |entries| && entries[k].1 == Json.Str(rest.value) &&
                              forall j :: 0 <= j < k ==> !IsLongString(entries[j].1) by {
        if rest.Some? {
          var k :| 0 <= k < |entries| - 1 && entries[1..][k].1 == Json.Str(rest.value) &&
                   forall j :: 0 <= j < k ==> !IsLongString(entries[1..][j].1);
          assert entries[k + 1].1 == Json.Str(rest.value);
        }
      }
      rest
  }

  /** The text a record contributes: the value under 'text', else under
      'content', else under 'description', else the first long string;
      nothing for an item that is not a dict. */
  function TextOf(item: Json.Value): Option<Json.Value> {
    if !item.Obj? then None
    else if Json.HasKey(item.entries, "text") then Json.Get(item.entries, "text")
    else if Json.HasKey(item.entries, "content") then Json.Get(item.entries, "content")
    else if Json.HasKey(item.entries, "description") then Json.Get(item.entries, "description")
    else
      match FirstLongString(item.entries)
      case Some(s) => Some(Json.Str(s))
      case None => None
  }

  const DefaultLabel: Json.Value := Json.Int(0)

  /** The label a record contributes in classification mode: the value
      under 'label', else 'category', else 'class', else 0; nothing for an
      item that is not a dict. */
  function LabelOf(item: Json.Value): Option<Json.Value> {
    if !item.Obj? then None
    else if Json.HasKey(item.entries, "label") then Json.Get(item.entries, "label")
    else if Json.HasKey(item.entries, "category") then Json.Get(item.entries, "category")
    else if Json.HasKey(item.entries, "class") then Json.Get(item.entries, "class")
    else Some(DefaultLabel)
  }

  const Classification: string := "classification"

  /** What `prepare_training_data` returns: the texts, and the labels in
      classification mode only, 0 for every text when no item gave one. */
  function Prepared(data: seq<Json.Value>, taskType: string): (seq<Json.Value>, Option<seq<Json.Value>>) {
    var texts := Picked(data, TextOf);
    if taskType == Classification then
      var labels := Picked(data, LabelOf);
      (texts, Some(if labels == [] then seq(|texts|, _ => DefaultLabel) else labels))
    else (texts, None)
  }

  /** The texts come from dict items only, in order, one per dict at most;
      every dict with a 'text' key gives its value. In classification mode
      there is one label per dict, so never fewer labels than texts;
      otherwise there are no labels. */
  lemma PreparedMeans(data: seq<Json.Value>, taskType: string)
    ensures var (texts, _) := Prepared(data, taskType);
      |texts| <= |Filter(data, IsDict)| &&
      (forall t :: t in texts ==> exists k :: 0 <= k < |data| && data[k].Obj? && TextOf(data[k]) == Some(t)) &&
      (forall k :: 0 <= k < |data| && data[k].Obj? && Json.HasKey(data[k].entries, "text") ==>
         Json.Get(data[k].entries, "text").value in texts)
    ensures var (texts, labels) := Prepared(data, taskType);
      (taskType == Classification ==> labels.Some? && |labels.value| == |Filter(data, IsDict)| && |labels.value| >= |texts|) &&
      (taskType != Classification ==> labels.None?)
  {
    var texts := Picked(data, TextOf);
    PickedFewer(data, TextOf, LabelOf);
    PickedCount(data, LabelOf, IsDict);
    forall t | t in texts
      ensures exists k :: 0 <= k < |data| && data[k].Obj? && TextOf(data[k]) == Some(t)
    {
      PickedSound(data, TextOf, t);
    }
    forall k | 0 <= k < |data| && data[k].Obj? && Json.HasKey(data[k].entries, "text")
      ensures Json.Get(data[k].entries, "text").value in texts
    {
      PickedComplete(data, TextOf, k);
    }
  }

  /** The records of two batches give the texts of each, in batch order. */
  lemma PreparedAppend(a: seq<Json.Value>, b: seq<Json.Value>, taskType: string)
    ensures Prepared(a + b, taskType).0 == Prepared(a, taskType).0 + Prepared(b, taskType).0
  {
    PickedAppend(a, b, TextOf);
  }

  /** The inner `for key, value in item.items()` loop with its `break`. */
  method FindLongString(entries: seq<(string, Json.Value)>) returns (r: Option<string>)
    ensures r == FirstLongString(entries)
  {
    for k := 0 to |entries|
      invariant FirstLongString(entries) == FirstLongString(entries[k..])
    {
      assert entries[k..][1..] == entries[k + 1..];
      var value := entries[k].1;
      if value.Str? && |value.s| > 10 {
        return Some(value.s);
      }
    }
    return None;
  }

  /** The text branch of the loop body for a dict item. */
  method ItemText(entries: seq<(string, Json.Value)>) returns (text: Option<Json.Value>)
    ensures text == TextOf(Json.Obj(entries))
  {
    if Json.HasKey(entries, "text") {
      text := Json.Get(entries, "text");
    } else if Json.HasKey(entries, "content") {
      text := Json.Get(entries, "content");
    } else if Json.HasKey(entries, "description") {
      text := Json.Get(entries, "description");
    } else {
      var s := FindLongString(entries);
      text := if s.Some? then Some(Json.Str(s.value)) else None;
    }
  }

  /** The label branch of the loop body for a dict item. */
  method ItemLabel(entries: seq<(string, Json.Value)>) returns (found: Json.Value)
    ensures Some(found) == LabelOf(Json.Obj(entries))
  {
    if Json.HasKey(entries, "label") {
      found := Json.Get(entries, "label").value;
    } else if Json.HasKey(entries, "category") {
      found := Json.Get(entries, "category").value;
    } else if Json.HasKey(entries, "class") {
      found := Json.Get(entries, "class").value;
    } else {
      found := DefaultLabel;
    }
  }

  /** `prepare_training_data`. */
  method PrepareTrainingData(data: seq<Json.Value>, taskType: string) returns (texts: seq<Json.Value>, labels: Option<seq<Json.Value>>)
    ensures (texts, labels) == Prepared(data, taskType)
  {
    texts := [];
    var found: seq<Json.Value> := [];
    for i := 0 to |data|
      invariant texts == Picked(data[..i], TextOf)
      invariant found == if taskType == Classification then Picked(data[..i], LabelOf) else []
    {
      PickedSnoc(data, i, TextOf);
      PickedSnoc(data, i, LabelOf);
      var item := data[i];
      if item.Obj? {
        var text := ItemText(item.entries);
        if text.Some? {
          texts := texts + [text.value];
        }
        if taskType == Classification {
          var itemLabel := ItemLabel(item.entries);
          found := found + [itemLabel];
        }
      }
    }
    TakeAll(data);
    if taskType == Classification && found == [] {
      found := seq(|texts|, _ => DefaultLabel);
    }
    labels := if taskType == Classification then Some(found) else None;
  }

  // ---------------------------------------------------------------------
  // extract_texts_from_data

  /** A dict with a 'text' key gives that value, a string gives itself,
      anything else gives nothing. */
  function TrainingText(item: Json.Value): Option<Json.Value> {
    if item.Obj? && Json.HasKey(item.entries, "text") then Json.Get(item.entries, "text")
    else if item.Str? then Some(item)
    else None
  }

  /** No more texts than items, each from a dict's 'text' entry or a plain
      string item; every string item is kept, and a list of strings comes
      back unchanged. */
  lemma ExtractedTexts(data: seq<Json.Value>)
    ensures |Picked(data, TrainingText)| <= |data|
    ensures forall t :: t in Picked(data, TrainingText) ==>
              exists k :: 0 <= k < |data| && ((data[k].Str? && data[k] == t) ||
                (data[k].Obj? && Json.Get(data[k].entries, "text") == Some(t)))
    ensures forall k :: 0 <= k < |data| && data[k].Str? ==> data[k] in Picked(data, TrainingText)
    ensures (forall k :: 0 <= k < |data| ==> data[k].Str?) ==> Picked(data, TrainingText) == data
  {
    forall t | t in Picked(data, TrainingText)
      ensures exists k :: 0 <= k < |data| && ((data[k].Str? && data[k] == t) ||
                (data[k].Obj? && Json.Get(data[k].entries, "text") == Some(t)))
    {
      PickedSound(data, TrainingText, t);
    }
    forall k | 0 <= k < |data| && data[k].Str?
      ensures data[k] in Picked(data, TrainingText)
    {
      PickedComplete(data, TrainingText, k);
    }
    if forall k :: 0 <= k < |data| ==> data[k].Str? {
      PickedIdentity(data, TrainingText);
    }
  }

  /** Two batches give the texts of each, in batch order. */
  lemma ExtractedAppend(a: seq<Json.Value>, b: seq<Json.Value>)
    ensures Picked(a + b, TrainingText) == Picked(a, TrainingText) + Picked(b, TrainingText)
  {
    PickedAppend(a, b, TrainingText);
  }

  /** `extract_texts_from_data`. */
  method ExtractTextsFromData(data: seq<Json.Value>) returns (texts: seq<Json.Value>)
    ensures texts == Picked(data, TrainingText)
  {
    texts := [];
    for i := 0 to |data|
      invariant texts == Picked(data[..i], TrainingText)
    {
      PickedSnoc(data, i, TrainingText);
      var item := data[i];
      if item.Obj? && Json.HasKey(item.entries, "text") {
        texts := texts + [Json.Get(item.entries, "text").value];
      } else if item.Str? {
        texts := texts + [item];
      }
    }
    TakeAll(data);
  }
}
