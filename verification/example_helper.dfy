/** The shared label helper. */
module ExampleHelper {
  const Placeholder: string := "Not specified"
  const Prefix: string := "Label: "

  /** An empty value is shown as a placeholder; any other value behind a
      prefix. */
  function CreateSimpleLabel(value: string): (r: string)
    ensures value == "" ==> r == Placeholder
    ensures value != "" ==> r == Prefix + value
    ensures |r| > 0
  {
    if value == "" then Placeholder else Prefix + value
  }

  /** Distinct non-empty values get distinct labels: the value is recovered by
      dropping the prefix. */
  lemma LabelIsInjective(a: string, b: string)
    requires a != "" && b != "" && CreateSimpleLabel(a) == CreateSimpleLabel(b)
    ensures a == b
  {
    assert a == CreateSimpleLabel(a)[|Prefix|..];
    assert b == CreateSimpleLabel(b)[|Prefix|..];
  }

  /** No label of a value can be mistaken for the placeholder. */
  lemma LabelIsNotPlaceholder(value: string)
    requires value != ""
    ensures CreateSimpleLabel(value) != Placeholder
  {
    assert CreateSimpleLabel(value)[..|Prefix|] == Prefix;
    assert Placeholder[0] != Prefix[0];
  }
}
