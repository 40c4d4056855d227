/** The records kept in the vector store and the per-file analysis result. */
module Records {
  import opened Common

  /** A record's metadata dictionary; `None` is an absent key. The store never
      holds a `None` value, so an absent key is the only way a field is missing. */
  datatype Meta = Meta(filename: Option<string>, bpm: Option<real>, key: Option<string>, engine: Option<string>)

  /** `{}` */
  const NoMeta: Meta := Meta(None, None, None, None)

  /** `metadata.get('bpm', 0)` */
  function BpmOrZero(m: Meta): real {
    m.bpm.GetOr(0.0)
  }

  /** `metadata.get('key', '')` */
  function KeyOrEmpty(m: Meta): string {
    m.key.GetOr("")
  }

  /** The (bpm, key) pair an analysis engine returns for one file. */
  datatype Analysis = Analysis(bpm: Option<real>, key: Option<string>)

  const NoAnalysis: Analysis := Analysis(None, None)

  /** One `collection.add`: id, embedding, document and metadata. */
  datatype SampleRecord = SampleRecord(id: string, embedding: seq<real>, document: string, meta: Meta)

  /** The engine tags written into `analysis_engine`. */
  const LibrosaTag: string := "librosa"
  const EssentiaTag: string := "essentia"
}
