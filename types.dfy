/** The record the service produces: one timestamped, speaker-attributed line of transcript. */
module Types {

  /**
   * `timestamp` is clock text (`MM:SS` or `H:MM:SS`); `speaker` is a label such as
   * "Speaker 1", or "System" on a placeholder for a chunk that could not be transcribed.
   */
  datatype Segment = Segment(timestamp: string, speaker: string, text: string)
}
