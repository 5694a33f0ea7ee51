/**
 * The settings record the pipeline reads at the start of each operation, and
 * the paths of the data directory. Reading the environment is not modelled:
 * every operation takes a `Settings` value as the environment would give it.
 */
module Config {
  import opened Outcomes

  datatype Settings = Settings(
    apiKey: string,
    apiBase: string,
    embeddingModel: string,
    llmModel: string,
    chunkSize: int,
    chunkOverlap: int,
    retrieveK: int,
    embedBatchSize: int)

  /** The paths the pipeline reads and writes, all under the data directory of the checkout. */
  datatype Layout = Layout(papersDir: string, indexDir: string, chunksFile: string, embeddingsFile: string)

  const MissingKeyMessage := "OPENROUTER_API_KEY is missing. Put it in your .env file."

  /** get_settings: the settings, unless no API key is set. */
  function GetSettings(s: Settings): (r: Result<Settings>)
    ensures r.Success? <==> s.apiKey != []
    ensures r.Success? ==> r.value == s
    ensures r.Failure? ==> r.error == ValueError(MissingKeyMessage)
  {
    if s.apiKey == [] then Failure(ValueError(MissingKeyMessage)) else Success(s)
  }
}
