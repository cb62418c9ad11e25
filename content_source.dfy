/**
  The `New` command: where the new template's text comes from, and the file it
  is written to.

  Exactly one of the literal `--content` and the `--file` to read must be given;
  giving neither and giving both are two distinct `Parse` errors. The file read
  is a parameter (`read`), so its outcome is whatever the file system says; a
  read failure is propagated as an `Io` error.
*/
module ContentSource {
  import opened Wrappers

  type Path = string

  /** The errors the command-line layer raises or propagates. */
  datatype TemplateError = Parse(message: string) | Io(message: string)

  const NeitherGiven: string := "Either content or file must be provided"
  const BothGiven: string := "Cannot provide both content and file"

  /** The write the `New` command asks for once it has the template text. */
  datatype FileWrite = FileWrite(path: Path, contents: string)

  /** The `match (content, file)` of the `New` command. */
  function SelectContent(content: Option<string>, file: Option<Path>,
                         read: Path -> Result<string, string>): (r: Result<string, TemplateError>)
    // A Parse error exactly when the two sources are not mutually exclusive.
    ensures (r.Failure? && r.error.Parse?) <==> (content.Some? == file.Some?)
    ensures content.None? && file.None? ==> r == Failure(Parse(NeitherGiven))
    ensures content.Some? && file.Some? ==> r == Failure(Parse(BothGiven))
    // A literal is returned unchanged, and the file is not read.
    ensures content.Some? && file.None? ==> r == Success(content.value)
    // A file is read, and its text or its read error passed through.
    ensures content.None? && file.Some? ==>
              (r.Success? <==> read(file.value).Success?) &&
              (r.Success? ==> r.value == read(file.value).value) &&
              (r.Failure? ==> r.error == Io(read(file.value).error))
  {
    match (content, file)
    case (Some(text), None) => Success(text)
    case (None, Some(path)) =>
      (match read(path)
       case Success(text) => Success(text)
       case Failure(e) => Failure(Io(e)))
    case (None, None) => Failure(Parse(NeitherGiven))
    case (Some(_), Some(_)) => Failure(Parse(BothGiven))
  }

  /** The `New` command up to its file write: the write it performs, or the error it stops with. */
  function NewCommand(output: Path, content: Option<string>, file: Option<Path>,
                      read: Path -> Result<string, string>): (r: Result<FileWrite, TemplateError>)
    ensures r.Success? <==> SelectContent(content, file, read).Success?
    ensures r.Success? ==> r.value.path == output && r.value.contents == SelectContent(content, file, read).value
    ensures r.Failure? ==> r.error == SelectContent(content, file, read).error
  {
    match SelectContent(content, file, read)
    case Success(text) => Success(FileWrite(output, text))
    case Failure(e) => Failure(e)
  }

  /** When the file reads, selection succeeds exactly when one source is given. */
  lemma SucceedsIffExactlyOne(content: Option<string>, file: Option<Path>,
                              read: Path -> Result<string, string>)
    requires file.Some? ==> read(file.value).Success?
    ensures SelectContent(content, file, read).Success? <==> (content.Some? != file.Some?)
  {
  }

  /** Only the given source matters: the literal path ignores the reader altogether. */
  lemma LiteralIgnoresReader(text: string, read1: Path -> Result<string, string>,
                             read2: Path -> Result<string, string>)
    ensures SelectContent(Some(text), None, read1) == SelectContent(Some(text), None, read2)
  {
  }
}
