/** The JSON shapes the client receives from `GET /api/companies`: a company with
    its applications resolved, every timestamp present (milliseconds since the
    epoch stand in for the ISO-8601 strings on the wire). */
module Views {
  import opened Store

  datatype AppView = AppView(id: Id, title: string, location: string, status: string,
                             createdAt: int)

  datatype CompanyView = CompanyView(id: Id, name: string, applications: seq<AppView>,
                                     createdAt: int)

  /** The number of applications over all companies, as the page footer sums it. */
  function TotalApps(cs: seq<CompanyView>): (n: nat)
    ensures forall i :: 0 <= i < |cs| ==> |cs[i].applications| <= n
    ensures n == 0 <==> forall i :: 0 <= i < |cs| ==> cs[i].applications == []
  {
    if cs == [] then 0 else |cs[0].applications| + TotalApps(cs[1..])
  }
}
