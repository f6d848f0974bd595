/**
 * The exceptions the inventory core raises or lets through, one constructor
 * per exception type. The HTTP layer reports any of them that reaches it by
 * its type name only.
 */
module Exceptions {

  datatype Fault =
    | InvalidSGTIN96CompanyProductCombination  // InvalidSGTIN96_CompanyProduct_CombinationException
    | ValueMismatch                            // BackendException("Value mismatch...")
    | InvalidID                                // InvalidIDException
    | CompanyNotFound                          // CompanyNotFoundException
    | ProductNotFound                          // ProductNotFoundException
    | InvalidSGTIN96Tag                        // InvalidSGTIN96TagException
    | ArgumentOutOfRange                       // indexing the first tag of an empty list
    | NumberFormat                             // ulong.Parse or uint.Parse rejecting its text
    | ArgumentNull                             // Regex.IsMatch given a null string
}
