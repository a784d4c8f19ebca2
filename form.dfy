/** The recipe form of `add_recipe` carries a variable number of ingredient
    and step fields (`ingridients1`, `ingridients2`, ..., `steps1`, ...). The
    handler flattens each group into one string, the values joined by " ~ ",
    so that a recipe page can split it back into a list. */
module Form {
  import opened Text

  /** One (name, value) pair of the submitted form. */
  datatype Field = Field(key: string, value: string)

  /** The prefix the handler tests ingredient field names against (spelled as
      in the form). */
  const IngredientPrefix: string := "ingridients"

  /** The prefix the handler tests step field names against: "step", so that
      any name starting "step" counts, "steps1" among them. */
  const StepPrefix: string := "step"

  /** No field name occurs twice: what `request.form.items()` yields. */
  predicate DistinctKeys(form: seq<Field>) {
    forall i, j :: 0 <= i < j < |form| ==> form[i].key != form[j].key
  }

  /** `request.form.get(key)`: the value of the first field with that name. */
  function Lookup(form: seq<Field>, key: string): (r: Option<string>)
    ensures r.None? <==> forall i :: 0 <= i < |form| ==> form[i].key != key
    ensures r.Some? ==> exists i :: 0 <= i < |form| && form[i] == Field(key, r.value)
  {
    if |form| == 0 then None
    else if form[0].key == key then Some(form[0].value)
    else
      var r := Lookup(form[1..], key);
      assert forall i :: 1 <= i < |form| ==> form[i] == form[1..][i - 1];
      r
  }

  /** The values of the fields whose names start with `prefix`, in form
      order. */
  function ValuesWithPrefix(form: seq<Field>, prefix: string): seq<string>
  {
    if |form| == 0 then []
    else
      var last := form[|form| - 1];
      ValuesWithPrefix(form[..|form| - 1], prefix)
        + (if StartsWith(last.key, prefix) then [last.value] else [])
  }

  /** One more field of the form adds its value to the group when its name
      matches, and nothing otherwise. */
  lemma ValuesWithPrefixStep(form: seq<Field>, i: nat, prefix: string)
    requires i < |form|
    ensures StartsWith(form[i].key, prefix) ==>
      ValuesWithPrefix(form[..i + 1], prefix) == ValuesWithPrefix(form[..i], prefix) + [form[i].value]
    ensures !StartsWith(form[i].key, prefix) ==>
      ValuesWithPrefix(form[..i + 1], prefix) == ValuesWithPrefix(form[..i], prefix)
  {
    assert form[..i + 1][..i] == form[..i];
  }

  /** The flattening loop of `add_recipe`: one pass over the form with a
      string accumulator and a counter per group; a value is appended with a
      leading " ~ " unless the group's counter is still zero. The results are
      the group's values in form order, joined by " ~ ". */
  method FlattenFields(form: seq<Field>) returns (ingredients: string, steps: string)
    requires DistinctKeys(form)
    ensures ingredients == Join(Sep, ValuesWithPrefix(form, IngredientPrefix))
    ensures steps == Join(Sep, ValuesWithPrefix(form, StepPrefix))
  {
    ingredients, steps := "", "";
    var ingredientCount, stepCount := 0, 0;
    for i := 0 to |form|
      invariant ingredients == Join(Sep, ValuesWithPrefix(form[..i], IngredientPrefix))
      invariant ingredientCount == |ValuesWithPrefix(form[..i], IngredientPrefix)|
      invariant steps == Join(Sep, ValuesWithPrefix(form[..i], StepPrefix))
      invariant stepCount == |ValuesWithPrefix(form[..i], StepPrefix)|
    {
      var key, val := form[i].key, form[i].value;
      if StartsWith(key, IngredientPrefix) {
        ValuesWithPrefixStep(form, i, IngredientPrefix);
        JoinSnoc(Sep, ValuesWithPrefix(form[..i], IngredientPrefix), val);
        if ingredientCount > 0 {
          ingredients := ingredients + Sep + val;
          ingredientCount := ingredientCount + 1;
        } else {
          ingredients := ingredients + val;
          ingredientCount := ingredientCount + 1;
        }
      } else {
        ValuesWithPrefixStep(form, i, IngredientPrefix);
      }
      if StartsWith(key, StepPrefix) {
        ValuesWithPrefixStep(form, i, StepPrefix);
        JoinSnoc(Sep, ValuesWithPrefix(form[..i], StepPrefix), val);
        if stepCount > 0 {
          steps := steps + Sep + val;
          stepCount := stepCount + 1;
        } else {
          steps := steps + val;
          stepCount := stepCount + 1;
        }
      } else {
        ValuesWithPrefixStep(form, i, StepPrefix);
      }
    }
    assert form[..|form|] == form;
  }

  /** A value is collected exactly when some field with a matching name
      carries it. */
  lemma {:induction false} ValuesWithPrefixMembers(form: seq<Field>, prefix: string, v: string)
    ensures v in ValuesWithPrefix(form, prefix)
        <==> exists i :: 0 <= i < |form| && StartsWith(form[i].key, prefix) && form[i].value == v
  {
    if |form| > 0 {
      var init := form[..|form| - 1];
      ValuesWithPrefixMembers(init, prefix, v);
      assert forall i :: 0 <= i < |init| ==> init[i] == form[i];
    }
  }

  /** A group is empty, and its flattened string is "", exactly when no field
      name starts with its prefix. */
  lemma {:induction false} NoMatchingFieldsGiveEmpty(form: seq<Field>, prefix: string)
    ensures ValuesWithPrefix(form, prefix) == []
        <==> forall i :: 0 <= i < |form| ==> !StartsWith(form[i].key, prefix)
    ensures ValuesWithPrefix(form, prefix) == [] ==> Join(Sep, ValuesWithPrefix(form, prefix)) == ""
  {
    if |form| > 0 {
      var init := form[..|form| - 1];
      NoMatchingFieldsGiveEmpty(init, prefix);
      assert forall i :: 0 <= i < |init| ==> init[i] == form[i];
    }
  }

  /** No field name starts with both prefixes. */
  lemma PrefixesDisjoint(key: string)
    ensures !(StartsWith(key, IngredientPrefix) && StartsWith(key, StepPrefix))
  {
    if StartsWith(key, IngredientPrefix) {
      assert key[0] == IngredientPrefix[0];
    }
  }

  /** Each field lands in at most one group, so the two groups together hold
      at most as many values as the form has fields. */
  lemma {:induction false} GroupsShareNoField(form: seq<Field>)
    ensures |ValuesWithPrefix(form, IngredientPrefix)| + |ValuesWithPrefix(form, StepPrefix)| <= |form|
  {
    if |form| > 0 {
      GroupsShareNoField(form[..|form| - 1]);
      PrefixesDisjoint(form[|form| - 1].key);
    }
  }

  /** A field whose name has the other prefix, or neither, changes nothing in
      a group, wherever in the form it stands. */
  lemma {:induction false} OtherFieldsContributeNothing(before: seq<Field>, f: Field, after: seq<Field>, prefix: string)
    requires !StartsWith(f.key, prefix)
    ensures ValuesWithPrefix(before + [f] + after, prefix) == ValuesWithPrefix(before + after, prefix)
  {
    if |after| == 0 {
      assert before + [f] + after == before + [f];
      assert (before + [f])[..|before|] == before;
      assert before + after == before;
    } else {
      var init := after[..|after| - 1];
      OtherFieldsContributeNothing(before, f, init, prefix);
      assert (before + [f] + after)[..|before + [f] + after| - 1] == before + [f] + init;
      assert (before + after)[..|before + after| - 1] == before + init;
    }
  }

  /** The flattened ingredients and steps split back into the values they
      came from, as long as each group is non-empty and no value holds '~'. */
  lemma FlattenedGroupsSplitBack(form: seq<Field>, prefix: string)
    requires ValuesWithPrefix(form, prefix) != []
    requires forall i :: 0 <= i < |form| && StartsWith(form[i].key, prefix) ==> '~' !in form[i].value
    ensures Split(Join(Sep, ValuesWithPrefix(form, prefix)), Sep) == ValuesWithPrefix(form, prefix)
  {
    var vs := ValuesWithPrefix(form, prefix);
    forall k | 0 <= k < |vs| ensures '~' !in vs[k] {
      ValuesWithPrefixMembers(form, prefix, vs[k]);
    }
    SplitJoin(vs);
  }
}
