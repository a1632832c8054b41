/** The member record of the health overview page
    (client/app/dashboard/health-overview/page.tsx). */
module HealthMember {
  import opened Wrappers

  /** One family member with the medical data the page attaches to it, with
      the fields of the page's `Member` interface. `generation` is a placeholder
      until the generation resolver fills it in. `birthDate`, `status` and
      `partnerIds` are read by none of the modelled operations; they are kept so
      that the annotation's "every other field unchanged" covers them too. */
  datatype Member = Member(
    id: string,
    name: string,
    surname: Option<string>,
    fatherId: Option<string>,
    motherId: Option<string>,
    birthDate: Option<string>,
    status: Option<string>,
    generation: int,
    medicalConditions: seq<string>,
    bloodType: Option<string>,
    partnerIds: seq<string>)

  /** `${m.name} ${m.surname || ""}`. */
  function FullName(m: Member): string {
    m.name + " " + m.surname.GetOr("")
  }

  /** `m.medicalConditions.includes(c)`. */
  predicate HasCondition(m: Member, c: string) {
    c in m.medicalConditions
  }
}
