// Optional values, the converter's failure cases, and a result type that
// carries one of them.

module Outcomes {

  datatype Option<+T> = None | Some(value: T)

  /** The exceptions the converter can raise, one constructor per cause. */
  datatype MsaError =
    | LineBeforeHeader                 // a sequence line before any `>` header
    | EmptySequence                    // a header with no sequence after it
    | ReferenceCount(found: nat)       // not exactly one header holds the reference name
    | MalformedRegion(region: string)  // `contig:interval` does not have exactly one `:`
    | MalformedInterval(interval: string) // `start-end` does not have exactly one `-`
    | LengthMismatch                   // reference and sample differ in aligned length
    | NothingToMerge                   // the list of SNP tables to merge is empty
    | MalformedStart(start: string)    // the start coordinate is not an integer literal
    | NoReference                      // a VCF was requested before a reference was set

  datatype Result<+T> = Ok(value: T) | Err(error: MsaError)
}
