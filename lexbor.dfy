/** Status codes of the lexbor library (lxb_status_t), as far as the gzip engine returns or inspects them. */
module Lexbor {

  /** `Other` stands for every further lexbor status a sink may return (memory allocation error, aborted, ...). */
  datatype Status = Ok | Error | ObjectIsNull | WrongArgs | Stop | Other(code: nat)
}
