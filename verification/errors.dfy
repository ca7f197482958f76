/** The exceptions the package raises or lets escape, as values. The two
    custom classes of src/wfs20/error.py keep their `base` text and, for
    `WFSError`, the HTTP status code and response text. */
module Errors {

  datatype Error =
    /** Python `IndexError`: a sequence index out of range. */
    | IndexError
    /** Python `AttributeError`: an attribute that was never assigned, or a
        method looked up on `None` (a missing XML element). */
    | AttributeError
    /** Python `KeyError`: a missing XML attribute. */
    | KeyError
    /** Python `TypeError`: an operand of the wrong class, or `None` where a
        string was expected. */
    | TypeError
    /** lxml `XMLSyntaxError`: response content that is not well-formed XML. */
    | SyntaxError
    /** `WFSError(base, code, message)`, e.g. "Client Error" for a 4xx status. */
    | WfsError(base: string, status: int, message: string)
    /** `WFSInternalError(base, message)`, e.g. "Request Error". */
    | InternalError(base: string)
}
