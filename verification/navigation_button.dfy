/**
 * The sidebar navigation button: whether it is highlighted for the current
 * location, and what a click does.
 */
module NavigationButton {
  import opened Wrappers

  /** What a click on the button sets off. */
  datatype ClickEffect = Navigate(to: string) | CallOnClick

  /** `isActive`: a link is set and the pathname starts with it. */
  function IsActive(link: Option<string>, pathname: string): (active: bool)
    ensures link.None? ==> !active
    ensures link.Some? ==>
              (active <==> |link.value| <= |pathname|
                           && forall i :: 0 <= i < |link.value| ==> pathname[i] == link.value[i])
  {
    link.Some? && link.value <= pathname
  }

  /** The test is on characters, not on path segments. */
  lemma {:induction false} ActiveOnLongerSegment()
    ensures IsActive(Some("/settings"), "/settings-advanced")
    ensures !IsActive(Some("/settings/"), "/settings")
  {
  }

  /** A link is truthy when it is set and not the empty string. */
  predicate IsTruthy(link: Option<string>) {
    link.Some? && link.value != ""
  }

  /** `handleClick`: the effects of one click, in order. */
  function HandleClick(link: Option<string>, onClickProvided: bool): (effects: seq<ClickEffect>)
    ensures IsTruthy(link) ==> effects == [Navigate(link.value)]
    ensures !IsTruthy(link) && onClickProvided ==> effects == [CallOnClick]
    ensures !IsTruthy(link) && !onClickProvided ==> effects == []
    ensures multiset(effects)[CallOnClick] == (if !IsTruthy(link) && onClickProvided then 1 else 0)
  {
    if link.Some? && link.value != "" then [Navigate(link.value)]
    else if onClickProvided then [CallOnClick]
    else []
  }

  /**
   * An empty link is highlighted on every page, yet a click on it does not
   * navigate: `startsWith("")` holds while `""` is falsy.
   */
  lemma {:induction false} EmptyLinkActiveButInert(pathname: string, onClickProvided: bool)
    ensures IsActive(Some(""), pathname)
    ensures forall e :: e in HandleClick(Some(""), onClickProvided) ==> !e.Navigate?
  {
  }
}
