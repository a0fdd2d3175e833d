/** The three message enumerations shared by the REPL's threads.  The
    checkpoint crate and the chapter-1 crate declare the same three. */
module Messages {
  import opened Text

  /** What the worker thread receives. */
  datatype WorkerMsg = DoWork(text: string) | Quit

  /** What the main (coordinator) thread receives. */
  datatype MainMsg = WorkResult(result: string) | UserInput(input: string) | Quit

  /** A parsed command. */
  datatype Work = Add(a: U32, b: U32) | Ping | Help
}
