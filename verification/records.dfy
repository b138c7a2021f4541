/** Records that flow between the stages of the data-collection pipeline. */
module Records {

  /** A five-digit electoral district code; its leading two digits name the province. */
  type Code = int

  /** One cell of a scraped table: either empty (pandas NaN) or some text. */
  datatype Cell = Blank | Text(text: string)

  /** The exceptions the pipeline can raise. */
  datatype Error =
    | NotANumber                  // `int()` rejected the residual text
    | MissingValue                // a NaN reached `re.sub`
    | UnknownDistrict(name: string) // a district name absent from the name -> code dictionary
    | UnknownProvince(prefix: int)  // a code prefix absent from the province dictionary

  /** One candidate row of a detailed-results table, keyed by district `D`
      (a district name before re-keying, a code after). */
  datatype Candidate<D> = Candidate(district: D, affiliation: string, count: nat)

  /** The district column of candidate rows. */
  function DistrictsOf<D>(rows: seq<Candidate<D>>): (ds: seq<D>)
    ensures |ds| == |rows| && forall i :: 0 <= i < |rows| ==> ds[i] == rows[i].district
  {
    seq(|rows|, i requires 0 <= i < |rows| => rows[i].district)
  }

  /** One row of a turnout table: electors on the lists and valid ballots. */
  datatype Turnout<D> = Turnout(district: D, voters: nat, votes: nat)
}
