/** What the two fixture renderers put on screen, without markup or styling. */
module View {
  /** The status badge; each kind has one fixed Arabic caption. */
  datatype Status = Live | Finished | Upcoming {
    function Caption(): (s: string)
      ensures |s| > 0
    {
      match this
      case Live => "مباشر"
      case Finished => "انتهت"
      case Upcoming => "قريبًا"
    }
  }

  /** A team's picture: its logo image with its alt text, or a grey placeholder circle. */
  datatype Avatar = Logo(src: string, alt: string) | Placeholder

  datatype Side = Side(avatar: Avatar, name: string)

  /** Shown in place of a kickoff time that is null or missing. */
  const NoKickoff := "—"

  lemma CaptionsDistinct(a: Status, b: Status)
    requires a.Caption() == b.Caption()
    ensures a == b
  {
    assert "مباشر"[0] != "انتهت"[0] && "مباشر"[0] != "قريبًا"[0] && "انتهت"[0] != "قريبًا"[0];
  }
}
