/** The tag-name function registered on the validator in
    internal/shared/validation/validator.go: validation messages name a field
    by its json tag rather than by its Go name. */
module Validation {
  import opened Common

  /** The name of a struct field with Go name `fieldName` whose `json` tag is
      `jsonTag`: the field name when the tag is empty, otherwise the tag up to
      (not including) its first comma, or the whole tag when it has none. */
  function TagName(fieldName: string, jsonTag: string): (name: string)
    ensures jsonTag == "" ==> name == fieldName
    ensures jsonTag != "" ==> name <= jsonTag && ',' !in name
    ensures jsonTag != "" && ',' !in jsonTag ==> name == jsonTag
    ensures jsonTag != "" && ',' in jsonTag ==> |name| < |jsonTag| && jsonTag[|name|] == ','
  {
    if jsonTag == "" then fieldName
    else
      var idx := IndexOf(jsonTag, ',');
      if idx != -1 then jsonTag[..idx] else jsonTag
  }

  /** The name is the only comma-free prefix of a non-empty tag that is
      followed by a comma or by the end of the tag. */
  lemma TagNameUnique(fieldName: string, jsonTag: string, p: string)
    requires jsonTag != "" && p <= jsonTag && ',' !in p
    requires |p| == |jsonTag| || jsonTag[|p|] == ','
    ensures TagName(fieldName, jsonTag) == p
  {
  }
}
