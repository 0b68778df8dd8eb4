/** The option-to-default helpers of internal/shared/http/utils/deref_functions.go:
    a nil pointer reads as the zero value of its type. */
module Deref {
  import opened Common

  /** `DerefTime`: a present instant is itself, an absent one is the zero time. */
  function DerefTime(t: Option<Time>): (r: Time)
    ensures t.Some? ==> r == t.value
    ensures IsZero(r) <==> t.None? || IsZero(t.value)
  {
    match t
    case Some(v) => v
    case None => ZeroTime
  }

  /** `DerefString`: a present string is itself, an absent one is "". */
  function DerefString(s: Option<string>): (r: string)
    ensures s.Some? ==> r == s.value
    ensures r == "" <==> s.None? || s.value == ""
  {
    match s
    case Some(v) => v
    case None => ""
  }

  /** Dereferencing forgets the difference between absent and present-but-empty:
      the two options are distinct, their dereferences are not. */
  lemma DerefStringConflatesEmpty()
    ensures None != Some("") && DerefString(None) == DerefString(Some(""))
    ensures None != Some(ZeroTime) && DerefTime(None) == DerefTime(Some(ZeroTime))
  {
  }
}
