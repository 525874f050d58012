/** `FileFactory.for_type`: the file-format class for a configured format name. */
module FileFactory {
  import opened Wrappers

  datatype FileClass = YamlFile | JsonFile

  datatype UnsupportedFileException = UnsupportedFileException(fileType: string)

  function ForType(fileType: string): (r: Result<FileClass, UnsupportedFileException>)
    ensures r == Ok(YamlFile) <==> fileType == "yaml" || fileType == "yml"
    ensures r == Ok(JsonFile) <==> fileType == "json"
    ensures r.Err? ==> r.error.fileType == fileType
  {
    if fileType == "yaml" || fileType == "yml" then Ok(YamlFile)
    else if fileType == "json" then Ok(JsonFile)
    else Err(UnsupportedFileException(fileType))
  }

  /** Matching is exact: upper-case spellings are refused. */
  lemma CaseVariantsRefused()
    ensures ForType("YAML").Err? && ForType("Yml").Err? && ForType("JSON").Err?
  {
  }
}

/** `ClientFactory.for_type`: the translation client class for a configured API name. */
module ClientFactory {
  import opened Wrappers

  datatype ClientClass = DeeplClient

  datatype UnsupportedClientError = UnsupportedClientError(apiType: string)

  function ForType(apiType: string): (r: Result<ClientClass, UnsupportedClientError>)
    ensures r.Ok? <==> apiType == "deepl"
    ensures r.Ok? ==> r.value == DeeplClient
    ensures r.Err? ==> r.error.apiType == apiType
  {
    if apiType == "deepl" then Ok(DeeplClient) else Err(UnsupportedClientError(apiType))
  }

  /** Matching is exact and case-sensitive. */
  lemma CaseVariantRefused()
    ensures ForType("DeepL").Err? && ForType("DEEPL").Err?
  {
  }
}
