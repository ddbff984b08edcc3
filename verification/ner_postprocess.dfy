/** The post-processing of the prediction service: from the tokens of the query and the
    label id predicted for each token to the three fields of a chart intent. Tokenization and
    the model's prediction happen before this and are not modelled; the input is the list of
    (token, predicted label id) pairs; the tokens and the ids are zipped, as the
    source zips them. */
module NerPostprocess {
  import opened Wrappers
  import opened Strings
  import opened AssocList

  const PlotType: string := "PLOT_TYPE"
  const XAxisLabel: string := "X_AXIS_LABEL"
  const YAxisLabel: string := "Y_AXIS_LABEL"

  /** The characters `[(){}\[\]<>]` deleted from every final value. */
  const Brackets: set<char> := {'(', ')', '{', '}', '[', ']', '<', '>'}

  /** `label_map[id]` raises KeyError for an unknown id; `data['PLOT_TYPE']` raises
      KeyError when no token was labelled with the plot type. */
  datatype NerError = UnknownLabelId(id: int) | MissingKey(key: string)

  /** `label_map`: class id to BIO tag, a "B-" (begin) or "I-" (inside) prefix on the
      entity name, or "O" (outside). */
  function LabelName(id: int): Option<string>
  {
    if id == 0 then Some("O")
    else if id == 1 then Some("B-" + PlotType)
    else if id == 2 then Some("I-" + PlotType)
    else if id == 3 then Some("B-" + XAxisLabel)
    else if id == 4 then Some("I-" + XAxisLabel)
    else if id == 5 then Some("B-" + YAxisLabel)
    else if id == 6 then Some("I-" + YAxisLabel)
    else None
  }

  /** The entity a class id stands for, independently of how the tag is spelled: none for
      the outside tag and for unknown ids. */
  function EntityOf(id: int): Option<string>
  {
    if id == 1 || id == 2 then Some(PlotType)
    else if id == 3 || id == 4 then Some(XAxisLabel)
    else if id == 5 || id == 6 then Some(YAxisLabel)
    else None
  }

  /* ---------------------------------------------------------------- the stages */

  /** `[label_map[id] for id in predictions]`, zipped with the tokens; the first unknown id
      raises. */
  function MapLabels(pairs: seq<(string, int)>): (r: Result<seq<(string, string)>, NerError>)
    ensures r.Success? <==> forall i :: 0 <= i < |pairs| ==> LabelName(pairs[i].1).Some?
    ensures r.Success? ==> |r.value| == |pairs|
    ensures r.Success? ==> forall i :: 0 <= i < |pairs| ==> r.value[i] == (pairs[i].0, LabelName(pairs[i].1).value)
    ensures r.Failure? ==> exists i :: 0 <= i < |pairs| && LabelName(pairs[i].1).None? && r.error == UnknownLabelId(pairs[i].1)
  {
    if |pairs| == 0 then Success([])
    else
      var name := LabelName(pairs[0].1);
      if name.None? then Failure(UnknownLabelId(pairs[0].1))
      else
        var rest := MapLabels(pairs[1..]);
        if rest.Failure? then
          var i :| 0 <= i < |pairs[1..]| && LabelName(pairs[1..][i].1).None? && rest.error == UnknownLabelId(pairs[1..][i].1);
          assert pairs[i + 1] == pairs[1..][i];
          rest
        else
          assert forall i :: 1 <= i < |pairs| ==> pairs[i] == pairs[1..][i - 1];
          Success([(pairs[0].0, name.value)] + rest.value)
  }

  /** Drops the pairs tagged "O" and keeps the others in order. */
  function DropOutside(pairs: seq<(string, string)>): (r: seq<(string, string)>)
    ensures forall i :: 0 <= i < |r| ==> r[i].1 != "O"
    ensures forall p :: p in r <==> p in pairs && p.1 != "O"
    ensures |r| <= |pairs|
  {
    if |pairs| == 0 then []
    else (if pairs[0].1 == "O" then [] else [pairs[0]]) + DropOutside(pairs[1..])
  }

  /** On a single pair, `DropOutside` keeps it exactly when it is not tagged "O". Together
      with `DropOutsideAppend` this pins `DropOutside` down as the in-order filter. */
  lemma DropOutsideSingle(p: (string, string))
    ensures DropOutside([p]) == if p.1 == "O" then [] else [p]
  {
  }

  /** `DropOutside` distributes over concatenation, so the kept pairs keep their order and
      multiplicity. */
  lemma {:induction false} DropOutsideAppend(a: seq<(string, string)>, b: seq<(string, string)>)
    ensures DropOutside(a + b) == DropOutside(a) + DropOutside(b)
  {
    if |a| == 0 {
      assert a + b == b;
    } else {
      var head, rest := if a[0].1 == "O" then [] else [a[0]], a[1..];
      calc {
        DropOutside(a + b);
        { assert (a + b)[0] == a[0] && (a + b)[1..] == rest + b; }
        head + DropOutside(rest + b);
        { DropOutsideAppend(rest, b); }
        head + (DropOutside(rest) + DropOutside(b));
        (head + DropOutside(rest)) + DropOutside(b);
        DropOutside(a) + DropOutside(b);
      }
    }
  }

  /** `label.replace('B-', '').replace('I-', '')`. */
  function StripTag(tag: string): string
  {
    RemoveAll(RemoveAll(tag, "B-"), "I-")
  }

  function StripTags(pairs: seq<(string, string)>): (r: seq<(string, string)>)
    ensures |r| == |pairs|
    ensures forall i :: 0 <= i < |pairs| ==> r[i] == (pairs[i].0, StripTag(pairs[i].1))
  {
    if |pairs| == 0 then [] else [(pairs[0].0, StripTag(pairs[0].1))] + StripTags(pairs[1..])
  }

  /** One step of the grouping loop: the token is appended to its label's string (created
      empty on first use); when the token holds a '#', every '#' of the result is deleted. */
  function AddToken(data: AssocList<string>, token: string, tag: string): AssocList<string>
  {
    Assign(data, tag, Appended(Get(data, tag).GetOr(""), token))
  }

  /** The new string of a label after `token`. */
  function Appended(current: string, token: string): string
  {
    if '#' in token then RemoveChars(current + token, {'#'}) else current + token
  }

  /** No pair carries the label `tag`. */
  predicate NoTag(pairs: seq<(string, string)>, tag: string)
  {
    forall i :: 0 <= i < |pairs| ==> pairs[i].1 != tag
  }

  /** The grouping loop over the (token, label) pairs, in order. */
  function Group(pairs: seq<(string, string)>): AssocList<string>
  {
    if |pairs| == 0 then []
    else AddToken(Group(pairs[..|pairs| - 1]), pairs[|pairs| - 1].0, pairs[|pairs| - 1].1)
  }

  /** `re.search('scatter', value.lower())`. */
  predicate MentionsScatter(value: string)
  {
    ContainsSub(AsciiLower(value), "scatter")
  }

  /** Replaces the plot type by "scatter" when it mentions "scatter" in any letter case. */
  function StandardizePlotType(data: AssocList<string>): (r: Result<AssocList<string>, NerError>)
    ensures r.Failure? <==> PlotType !in Keys(data)
    ensures r.Failure? ==> r.error == MissingKey(PlotType)
  {
    var plot := Get(data, PlotType);
    if plot.None? then Failure(MissingKey(PlotType))
    else if MentionsScatter(plot.value) then Success(Assign(data, PlotType, "scatter"))
    else Success(data)
  }

  /** The final loop: deletes the bracket characters from every value; keys stay in place. */
  function StripBrackets(data: AssocList<string>): (r: AssocList<string>)
    ensures |r| == |data|
    ensures forall i :: 0 <= i < |data| ==> r[i] == (data[i].0, RemoveChars(data[i].1, Brackets))
  {
    if |data| == 0 then [] else [(data[0].0, RemoveChars(data[0].1, Brackets))] + StripBrackets(data[1..])
  }

  /** `process_input` after the model has labelled the tokens. */
  function ProcessInput(pairs: seq<(string, int)>): (r: Result<AssocList<string>, NerError>)
  {
    var labelled :- MapLabels(pairs);
    var filtered := StripTags(DropOutside(labelled));
    var data :- StandardizePlotType(Group(filtered));
    Success(StripBrackets(data))
  }

  /* ---------------------------------------------------------------- reference definitions */

  /** No token was predicted as entity `e`. */
  predicate NoEntity(pairs: seq<(string, int)>, e: string)
  {
    forall i :: 0 <= i < |pairs| ==> EntityOf(pairs[i].1) != Some(e)
  }

  /** The tokens predicted as entity `e`, concatenated in input order with no separator. */
  function TokensFor(pairs: seq<(string, int)>, e: string): string
  {
    if |pairs| == 0 then ""
    else (if EntityOf(pairs[0].1) == Some(e) then pairs[0].0 else "") + TokensFor(pairs[1..], e)
  }

  /** The value the service reports for entity `e`: absent when no token was predicted as
      `e`; otherwise the entity's tokens concatenated, without '#' and bracket characters,
      except that a plot type mentioning "scatter" becomes exactly "scatter". */
  function Expected(pairs: seq<(string, int)>, e: string): Option<string>
  {
    if NoEntity(pairs, e) then None
    else
      var text := RemoveChars(TokensFor(pairs, e), {'#'});
      if e == PlotType && MentionsScatter(text) then Some("scatter")
      else Some(RemoveChars(text, Brackets))
  }

  /* ---------------------------------------------------------------- proofs */

  /** Removing a "B-" or "I-" tag prefix leaves any name that holds no '-'. */
  lemma StripTagPrefixed(e: string)
    requires '-' !in e
    ensures StripTag("B-" + e) == e
    ensures StripTag("I-" + e) == e
  {
    RemoveAllLeading("B-", e);
    RemoveAllAbsent(e, "B-", '-');
    RemoveAllLeading("I-", e);
    RemoveAllAbsent(e, "I-", '-');
    RemoveAllUntouchedPrefix("I-", e, "B-");
  }

  /** Removing the tag prefix from any of the six entity tags leaves exactly the entity name. */
  lemma StripTagGivesEntity(id: int)
    requires 1 <= id <= 6
    ensures StripTag(LabelName(id).value) == EntityOf(id).value
  {
    var e := EntityOf(id).value;
    assert '-' !in e;
    StripTagPrefixed(e);
  }

  /** The label stages keep, in order, exactly the tokens of an entity, each with its
      entity name. */
  function EntityPairs(pairs: seq<(string, int)>): seq<(string, string)>
  {
    if |pairs| == 0 then []
    else (if EntityOf(pairs[0].1).Some? then [(pairs[0].0, EntityOf(pairs[0].1).value)] else [])
         + EntityPairs(pairs[1..])
  }

  lemma {:induction false} LabelStagesKeepEntities(pairs: seq<(string, int)>)
    requires MapLabels(pairs).Success?
    ensures StripTags(DropOutside(MapLabels(pairs).value)) == EntityPairs(pairs)
  {
    if |pairs| > 0 {
      var labelled := MapLabels(pairs).value;
      assert MapLabels(pairs[1..]).Success?;
      LabelStagesKeepEntities(pairs[1..]);
      assert labelled[1..] == MapLabels(pairs[1..]).value;
      var id := pairs[0].1;
      var head := if labelled[0].1 == "O" then [] else [labelled[0]];
      var out := if EntityOf(id).Some? then [(pairs[0].0, EntityOf(id).value)] else [];
      assert StripTags(head) == out by {
        if id != 0 {
          StripTagGivesEntity(id);
          assert |labelled[0].1| > 1;
        }
      }
      assert DropOutside(labelled) == head + DropOutside(labelled[1..]);
      StripTagsAppend(head, DropOutside(labelled[1..]));
      assert EntityPairs(pairs) == out + EntityPairs(pairs[1..]);
    }
  }

  lemma StripTagsAppend(a: seq<(string, string)>, b: seq<(string, string)>)
    ensures StripTags(a + b) == StripTags(a) + StripTags(b)
  {
  }

  /** The tokens of a label in a list of (token, label) pairs, concatenated in order. */
  function ConcatLabel(pairs: seq<(string, string)>, tag: string): string
  {
    if |pairs| == 0 then ""
    else ConcatLabel(pairs[..|pairs| - 1], tag) + (if pairs[|pairs| - 1].1 == tag then pairs[|pairs| - 1].0 else "")
  }

  lemma NoTagAppend(a: seq<(string, string)>, b: seq<(string, string)>, tag: string)
    ensures NoTag(a + b, tag) <==> NoTag(a, tag) && NoTag(b, tag)
  {
    if NoTag(a, tag) && NoTag(b, tag) {
      forall i | 0 <= i < |a + b|
        ensures (a + b)[i].1 != tag
      {
        if i >= |a| {
          assert (a + b)[i] == b[i - |a|];
        }
      }
    }
    if NoTag(a + b, tag) {
      forall i | 0 <= i < |a|
        ensures a[i].1 != tag
      {
        assert (a + b)[i] == a[i];
      }
      forall i | 0 <= i < |b|
        ensures b[i].1 != tag
      {
        assert (a + b)[|a| + i] == b[i];
      }
    }
  }

  lemma NoTagSnoc(pairs: seq<(string, string)>, tag: string)
    requires |pairs| > 0
    ensures NoTag(pairs, tag) <==> NoTag(pairs[..|pairs| - 1], tag) && pairs[|pairs| - 1].1 != tag
  {
    var init := pairs[..|pairs| - 1];
    assert forall i :: 0 <= i < |init| ==> init[i] == pairs[i];
  }

  /** Grouping creates an entry for exactly the labels that occur. */
  lemma {:induction false} GroupAbsent(pairs: seq<(string, string)>, tag: string)
    ensures Get(Group(pairs), tag).None? <==> NoTag(pairs, tag)
  {
    if |pairs| > 0 {
      var n := |pairs| - 1;
      var init, token, t := pairs[..n], pairs[n].0, pairs[n].1;
      GroupAbsent(init, tag);
      var data := Group(init);
      assert Group(pairs) == AddToken(data, token, t);
      AssignGet(data, t, Appended(Get(data, t).GetOr(""), token), tag);
      NoTagSnoc(pairs, tag);
    }
  }

  /** Deleting '#' only when the appended token holds one gives the same string as deleting
      every '#' of the whole concatenation, once the accumulated part is already '#'-free. */
  lemma HashStep(c: string, token: string)
    ensures Appended(RemoveChars(c, {'#'}), token) == RemoveChars(c + token, {'#'})
  {
    RemoveCharsAppend(c, token, {'#'});
    RemoveCharsAppend(RemoveChars(c, {'#'}), token, {'#'});
    RemoveCharsIdempotent(c, {'#'});
    if '#' !in token {
      RemoveCharsNone(token, {'#'});
    }
  }

  /** Grouping gives each label the '#'-free concatenation of its tokens. */
  lemma {:induction false} GroupConcatenates(pairs: seq<(string, string)>, tag: string)
    requires Get(Group(pairs), tag).Some?
    ensures Get(Group(pairs), tag).value == RemoveChars(ConcatLabel(pairs, tag), {'#'})
  {
    var n := |pairs| - 1;
    var init, token, t := pairs[..n], pairs[n].0, pairs[n].1;
    var data := Group(init);
    assert Group(pairs) == AddToken(data, token, t);
    var current := Get(data, t).GetOr("");
    AssignGet(data, t, Appended(current, token), tag);
    var c := ConcatLabel(init, tag);
    if t == tag {
      if Get(data, tag).Some? {
        GroupConcatenates(init, tag);
      } else {
        GroupAbsent(init, tag);
        ConcatLabelAbsent(init, tag);
        RemoveCharsNone(c, {'#'});
      }
      assert current == RemoveChars(c, {'#'});
      HashStep(c, token);
      assert ConcatLabel(pairs, tag) == c + token;
      assert Get(Group(pairs), tag).value == Appended(current, token);
    } else {
      GroupConcatenates(init, tag);
      assert ConcatLabel(pairs, tag) == c by {
        assert ConcatLabel(pairs, tag) == c + "";
      }
      assert Get(Group(pairs), tag) == Get(data, tag);
    }
  }

  lemma {:induction false} ConcatLabelAbsent(pairs: seq<(string, string)>, tag: string)
    requires NoTag(pairs, tag)
    ensures ConcatLabel(pairs, tag) == ""
  {
    if |pairs| > 0 {
      ConcatLabelAbsent(pairs[..|pairs| - 1], tag);
    }
  }

  /** Concatenating from the back and from the front agree. */
  lemma {:induction false} ConcatLabelOfEntities(pairs: seq<(string, int)>, e: string)
    ensures ConcatLabel(EntityPairs(pairs), e) == TokensFor(pairs, e)
  {
    if |pairs| > 0 {
      ConcatLabelOfEntities(pairs[1..], e);
      var head := if EntityOf(pairs[0].1).Some? then [(pairs[0].0, EntityOf(pairs[0].1).value)] else [];
      ConcatLabelAppend(head, EntityPairs(pairs[1..]), e);
    }
  }

  lemma {:induction false} ConcatLabelAppend(a: seq<(string, string)>, b: seq<(string, string)>, tag: string)
    ensures ConcatLabel(a + b, tag) == ConcatLabel(a, tag) + ConcatLabel(b, tag)
    decreases |b|
  {
    if |b| == 0 {
      assert a + b == a;
    } else {
      var n := |b| - 1;
      assert (a + b)[..|a + b| - 1] == a + b[..n];
      ConcatLabelAppend(a, b[..n], tag);
    }
  }

  /** No token of entity `e` survives the label stages exactly when none was predicted. */
  lemma {:induction false} EntityPairsLabels(pairs: seq<(string, int)>, e: string)
    ensures NoTag(EntityPairs(pairs), e) <==> NoEntity(pairs, e)
  {
    if |pairs| > 0 {
      var tail := pairs[1..];
      EntityPairsLabels(tail, e);
      var out := if EntityOf(pairs[0].1).Some? then [(pairs[0].0, EntityOf(pairs[0].1).value)] else [];
      assert EntityPairs(pairs) == out + EntityPairs(tail);
      NoTagAppend(out, EntityPairs(tail), e);
      assert NoTag(out, e) <==> EntityOf(pairs[0].1) != Some(e);
      assert NoEntity(pairs, e) <==> EntityOf(pairs[0].1) != Some(e) && NoEntity(tail, e) by {
        assert forall i :: 1 <= i < |pairs| ==> pairs[i] == tail[i - 1];
        if NoEntity(tail, e) && EntityOf(pairs[0].1) != Some(e) {
          forall i | 0 <= i < |pairs|
            ensures EntityOf(pairs[i].1) != Some(e)
          {
            if i > 0 {
              assert pairs[i] == tail[i - 1];
            }
          }
        }
      }
    }
  }

  /** Only the three entity names survive the label stages as labels. */
  lemma {:induction false} EntityPairsNames(pairs: seq<(string, int)>)
    ensures forall i :: 0 <= i < |EntityPairs(pairs)| ==>
              EntityPairs(pairs)[i].1 in {PlotType, XAxisLabel, YAxisLabel}
  {
    if |pairs| > 0 {
      EntityPairsNames(pairs[1..]);
      var out := if EntityOf(pairs[0].1).Some? then [(pairs[0].0, EntityOf(pairs[0].1).value)] else [];
      assert EntityPairs(pairs) == out + EntityPairs(pairs[1..]);
    }
  }

  /** The labels of a list of (token, label) pairs, in order. */
  function Tags(pairs: seq<(string, string)>): (ts: seq<string>)
    ensures |ts| == |pairs|
    ensures forall i :: 0 <= i < |pairs| ==> ts[i] == pairs[i].1
  {
    if |pairs| == 0 then [] else [pairs[0].1] + Tags(pairs[1..])
  }

  /** Grouping lists each label once, in the order of its first token. */
  lemma {:induction false} GroupKeys(pairs: seq<(string, string)>)
    ensures Keys(Group(pairs)) == FirstOccurrences(Tags(pairs))
    ensures Distinct(Keys(Group(pairs)))
  {
    if |pairs| > 0 {
      var n := |pairs| - 1;
      var init, token, t := pairs[..n], pairs[n].0, pairs[n].1;
      GroupKeys(init);
      assert Tags(pairs)[..n] == Tags(init);
      var data := Group(init);
      assert Group(pairs) == AddToken(data, token, t);
      AssignKeys(data, t, Appended(Get(data, t).GetOr(""), token));
    }
    FirstOccurrencesMembers(Tags(pairs));
  }

  /** The bracket stage changes values only. */
  lemma {:induction false} StripBracketsGet(data: AssocList<string>, k: string)
    ensures Keys(StripBrackets(data)) == Keys(data)
    ensures Get(StripBrackets(data), k) ==
              if Get(data, k).None? then None else Some(RemoveChars(Get(data, k).value, Brackets))
  {
    if |data| > 0 {
      StripBracketsGet(data[1..], k);
      assert StripBrackets(data)[1..] == StripBrackets(data[1..]);
    }
  }

  /** The plot-type stage changes at most the plot type's value, and keeps the keys. */
  lemma StandardizeGet(data: AssocList<string>, k: string)
    requires PlotType in Keys(data)
    ensures Keys(StandardizePlotType(data).value) == Keys(data)
    ensures Get(StandardizePlotType(data).value, k) ==
              if k == PlotType && MentionsScatter(Get(data, PlotType).value)
              then Some("scatter") else Get(data, k)
  {
    AssignKeys(data, PlotType, "scatter");
    AssignGet(data, PlotType, "scatter", k);
  }

  /** Once every id is known, `process_input` is grouping of the entity tokens followed by
      the plot-type and bracket stages. */
  lemma ProcessInputStages(pairs: seq<(string, int)>)
    requires MapLabels(pairs).Success?
    ensures var data := Group(EntityPairs(pairs));
            ProcessInput(pairs) ==
              if PlotType in Keys(data) then Success(StripBrackets(StandardizePlotType(data).value))
              else Failure(MissingKey(PlotType))
  {
    LabelStagesKeepEntities(pairs);
  }

  /** An unknown label id makes `process_input` fail with that error, before anything else. */
  lemma ProcessInputUnknownId(pairs: seq<(string, int)>)
    requires exists i :: 0 <= i < |pairs| && LabelName(pairs[i].1).None?
    ensures ProcessInput(pairs).Failure? && ProcessInput(pairs).error.UnknownLabelId?
  {
    assert MapLabels(pairs).Failure?;
  }

  /** With every id known, `process_input` fails exactly when no token was predicted as the
      plot type, and then reports the missing plot-type key. */
  lemma ProcessInputMissingPlotType(pairs: seq<(string, int)>)
    requires forall i :: 0 <= i < |pairs| ==> LabelName(pairs[i].1).Some?
    ensures ProcessInput(pairs).Failure? <==> Expected(pairs, PlotType).None?
    ensures ProcessInput(pairs).Failure? ==> ProcessInput(pairs).error == MissingKey(PlotType)
  {
    ProcessInputStages(pairs);
    var grouped := EntityPairs(pairs);
    var data := Group(grouped);
    if PlotType in Keys(data) {
      var std := StandardizePlotType(data).value;
      StandardizeGet(data, PlotType);
      StripBracketsGet(std, PlotType);
      ExpectedFromGroup(pairs, PlotType);
      assert Get(StripBrackets(std), PlotType).Some?;
    } else {
      EntityPairsLabels(pairs, PlotType);
      GroupAbsent(grouped, PlotType);
      assert Expected(pairs, PlotType).None?;
    }
  }

  /** Every field of a successful `process_input` holds the value `Expected` describes. */
  lemma ProcessInputValues(pairs: seq<(string, int)>)
    requires ProcessInput(pairs).Success?
    ensures forall e :: Get(ProcessInput(pairs).value, e) == Expected(pairs, e)
  {
    ProcessInputStages(pairs);
    forall e
      ensures Get(ProcessInput(pairs).value, e) == Expected(pairs, e)
    {
      ExpectedFromGroup(pairs, e);
    }
  }

  /** The fields of a successful `process_input` appear once each, in the order of their
      first token, and only the three entity names occur. */
  lemma ProcessInputKeys(pairs: seq<(string, int)>)
    requires ProcessInput(pairs).Success?
    ensures Keys(ProcessInput(pairs).value) == FirstOccurrences(Tags(EntityPairs(pairs)))
    ensures Distinct(Keys(ProcessInput(pairs).value))
    ensures forall k :: k in Keys(ProcessInput(pairs).value) ==> k in {PlotType, XAxisLabel, YAxisLabel}
  {
    ProcessInputStages(pairs);
    var grouped := EntityPairs(pairs);
    var data := Group(grouped);
    var std := StandardizePlotType(data).value;
    GroupKeys(grouped);
    StandardizeGet(data, PlotType);
    StripBracketsGet(std, PlotType);
    FirstOccurrencesMembers(Tags(grouped));
    EntityPairsNames(pairs);
  }

  /** One field of the result against its reference value. */
  lemma ExpectedFromGroup(pairs: seq<(string, int)>, e: string)
    requires MapLabels(pairs).Success?
    requires PlotType in Keys(Group(EntityPairs(pairs)))
    ensures Get(StripBrackets(StandardizePlotType(Group(EntityPairs(pairs))).value), e) == Expected(pairs, e)
  {
    var grouped := EntityPairs(pairs);
    var data := Group(grouped);
    var std := StandardizePlotType(data).value;
    StandardizeGet(data, e);
    StripBracketsGet(std, e);
    var g := Get(data, e);
    var absent := NoEntity(pairs, e);
    assert g.None? <==> absent by {
      EntityPairsLabels(pairs, e);
      GroupAbsent(grouped, e);
    }
    if g.Some? {
      var text := RemoveChars(TokensFor(pairs, e), {'#'});
      assert g.value == text by {
        GroupConcatenates(grouped, e);
        ConcatLabelOfEntities(pairs, e);
      }
      assert Expected(pairs, e) == if e == PlotType && MentionsScatter(text) then Some("scatter") else Some(RemoveChars(text, Brackets));
      if e == PlotType && MentionsScatter(text) {
        ScatterKeepsBrackets();
      }
    } else {
      assert Expected(pairs, e) == None;
    }
  }

  lemma ScatterKeepsBrackets()
    ensures RemoveChars("scatter", Brackets) == "scatter"
  {
    var s := "scatter";
    assert forall k :: 0 <= k < |s| ==> s[k] !in Brackets;
    RemoveCharsNone(s, Brackets);
  }
}
