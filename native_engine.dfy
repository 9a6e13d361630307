/** The MediaPipe LLM engine, seen from the bindings as an opaque
    collaborator. Nothing of its inference is modelled: each call the
    bindings make is replaced by a value saying how that call turns out. */
module NativeEngine {

  /** Sampling options a session is created with. */
  datatype SessionOptions = SessionOptions(temperature: real, topK: int)

  /** How loading a model file turns out: the engine is created and its first
      session too, or engine creation throws, or session creation throws. */
  datatype Load = Loaded | EngineRejected(message: string) | SessionRejected(message: string)

  /** How preparing one query turns out: ready to generate, or creating the
      fresh session throws, or adding the prompt to the session throws. */
  datatype Setup = Ready | SessionCreateFails(message: string) | AddQueryFails(message: string)

  /** How a token stream ends after its fragments: with the engine's
      "finished" flag, by throwing, or by simply delivering nothing more. */
  datatype StreamEnd = Finished | Broken(message: string) | Stalled

  /** The fragments the engine produces for one query, in order, and how the
      stream ends. */
  datatype Stream = Stream(parts: seq<string>, end: StreamEnd)
}
