/** The node labels of the derivation plot: each category, followed by its
    word when the sentence has a word at that position and the word differs
    from the category. */
module GraphLabels {

  const Separator := " - "

  /** The label the plot gives node `i`, stated case by case. */
  ghost predicate LabelOf(name: string, categories: seq<string>, tokens: seq<string>, i: int)
    requires 0 <= i < |categories|
  {
    if i < |tokens| && categories[i] != tokens[i] then name == categories[i] + Separator + tokens[i]
    else name == categories[i]
  }

  /** The label loop: one label per category, in order. */
  method BuildLabels(categories: seq<string>, tokens: seq<string>) returns (labels: seq<string>)
    ensures |labels| == |categories|
    ensures forall i :: 0 <= i < |categories| ==> LabelOf(labels[i], categories, tokens, i)
  {
    labels := [];
    var i := 0;
    while i < |categories|
      invariant 0 <= i <= |categories|
      invariant |labels| == i
      invariant forall j :: 0 <= j < i ==> LabelOf(labels[j], categories, tokens, j)
    {
      var name := categories[i];
      if |tokens| > i && name != tokens[i] {
        name := name + Separator + tokens[i];
      }
      labels := labels + [name];
      i := i + 1;
    }
  }

  /** Every label starts with its category, and what follows the category
      is either nothing or the separator and the word at that position; so
      the word can be read back from any label that is longer than its
      category. */
  lemma LabelsExtendCategories(categories: seq<string>, tokens: seq<string>, labels: seq<string>, i: int)
    requires |labels| == |categories|
    requires forall j :: 0 <= j < |categories| ==> LabelOf(labels[j], categories, tokens, j)
    requires 0 <= i < |categories|
    ensures categories[i] <= labels[i]
    ensures |labels[i]| > |categories[i]| <==> i < |tokens| && categories[i] != tokens[i]
    ensures i < |tokens| && categories[i] != tokens[i] ==>
              |labels[i]| == |categories[i]| + |Separator| + |tokens[i]| &&
              labels[i][|categories[i]| + |Separator|..] == tokens[i]
  {
    assert LabelOf(labels[i], categories, tokens, i);
    if i < |tokens| && categories[i] != tokens[i] {
      var name := labels[i];
      var n := |categories[i]|;
      assert name[..n] == categories[i];
      assert name[n + |Separator|..] == tokens[i];
    }
  }
}
