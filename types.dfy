/**
  Values shared by the client and both back ends: a citation's review state and one bounding region
  of its bounds. The type declarations themselves (`Types` in the client, `types` in the back ends)
  are not part of this model; these datatypes carry the fields the modelled code reads.
 */
module Types {

  /** Review state of a citation. */
  datatype Review = Unreviewed | Accepted | Rejected

  /** One page-located region of a citation: the page number and the region's polygon. */
  datatype Bound = Bound(pageNumber: int, polygon: seq<real>)
}
