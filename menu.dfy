/** The menu status badge of the menu screens (`getStatusColor` in the menu utilities). */
module Menu {
  import opened Types

  const EmeraldBadge := "bg-emerald-100 text-emerald-800"
  const BlueBadge := "bg-blue-100 text-blue-800"
  const AmberBadge := "bg-amber-100 text-amber-800"
  const GrayBadge := "bg-gray-100 text-gray-800"

  /**
   * `getStatusColor`: emerald for "active", blue for "completed", amber for
   * "upcoming", gray for any other string; each class belongs to one case.
   */
  function GetStatusColor(status: string): (r: string)
    ensures r in [EmeraldBadge, BlueBadge, AmberBadge, GrayBadge]
    ensures r == EmeraldBadge <==> status == "active"
    ensures r == BlueBadge <==> status == "completed"
    ensures r == AmberBadge <==> status == "upcoming"
    ensures r == GrayBadge <==> status !in ["active", "completed", "upcoming"]
  {
    match status
    case "active" => EmeraldBadge
    case "completed" => BlueBadge
    case "upcoming" => AmberBadge
    case _ => GrayBadge
  }

  /** Every status a menu can hold gets a colour of its own, never the fallback gray. */
  lemma MenuStatusesColoured(a: Status, b: Status)
    ensures GetStatusColor(a.Name()) != GrayBadge
    ensures a != b ==> GetStatusColor(a.Name()) != GetStatusColor(b.Name())
  {
  }
}
