/** Errors raised by the FASTA parser, the Result type that carries them,
    and the Option type the UniRef id scanner returns. */
module Results {

  /** The exceptions the parser can raise on its own inputs. */
  datatype Error =
    | NoHeaderToken                     // `header.split()[0]` on an empty or all-whitespace header (IndexError)
    | EmptyTable                        // a column read on a frame built from no rows (KeyError)
    | UniRefIdNotFound(query: string)   // `get_sequence_by_id` with no matching row (ValueError)

  datatype Result<+T> = Ok(value: T) | Err(error: Error)

  datatype Option<+T> = None | Some(value: T)
}
