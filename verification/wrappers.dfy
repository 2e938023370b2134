/** Option and Result types shared by the script models, and the error kinds
    the scripts raise (or exit with) instead of returning a value. */
module Wrappers {

  datatype Option<+T> = None | Some(value: T)

  /** The failures the scripts signal.  Each constructor names the situation;
      the comment gives the Python exception (or exit) that carries it. */
  datatype Error =
    | HttpStatus(status: int)             // ValueError / RuntimeError 'http error: ...'
    | RedirectLimit                       // redirect chain longer than the fuel given
    | MissingLocation                     // TypeError: get(None) after a redirect without `Location`
    | PageLimit                           // more result pages than the fuel given
    | NoSuchPackage(name: string)         // ValueError('no such package: ...')
    | MissingPrimaryIndex                 // IndexError: repomd.xml without a primary entry
    | MissingAttribute(name: string)      // KeyError on a fixed XML attribute or JSON key
    | MissingArgument(what: string)       // ValueError('missing ...')
    | UnknownModule(name: string)         // KeyError on the effective-version map
    | UnknownCategory(name: string)       // KeyError on the category table
    | NoVersionsFound                     // RuntimeError('no versions found for ...')
    | NotAString                          // TypeError: re.match on a value-less attribute
    | NoSuchFile(path: string)            // FileNotFoundError on open
    | Exit(code: int)                     // sys.exit(code)

  datatype Result<+T> = Ok(value: T) | Err(error: Error)
}
