/**
 * `LLMFactory` (models/llm.py). The chat clients are foreign; the model
 * records which client would be built and with which arguments.
 */
module Llm {
  import opened Wrappers
  import opened Text

  /** The configuration values `create_llm` reads; environment-provided, so passed in. */
  datatype Settings = Settings(googleApiKey: string, geminiModel: string, llamaModel: string)

  /** The client `create_llm` constructs, with the arguments it passes. */
  datatype ChatModel =
    | ChatOllama(model: string)
    | ChatGoogleGenerativeAI(model: string, googleApiKey: string, temperature: int,
                             maxTokens: Option<nat>, timeout: Option<nat>, maxRetries: nat)

  const GeminiKeyRequiredMessage := "Google API key is required for Gemini model"
  const UnsupportedModelMessage := "Unsupported model_name. Use 'llama' or 'gemini'."

  /** `google_api_key or Config.GOOGLE_API_KEY`: the given key unless it is empty. */
  function EffectiveApiKey(googleApiKey: string, settings: Settings): (key: string)
    ensures key == "" <==> googleApiKey == "" && settings.googleApiKey == ""
    ensures googleApiKey != "" ==> key == googleApiKey
    ensures googleApiKey == "" ==> key == settings.googleApiKey
  {
    if googleApiKey != "" then googleApiKey else settings.googleApiKey
  }

  /** `get_available_models`. */
  function GetAvailableModels(): (names: seq<string>)
    ensures names == ["llama", "gemini"]
  {
    ["llama", "gemini"]
  }

  /** `create_llm`: dispatch on the lower-cased model name. */
  function CreateLlm(modelName: string, googleApiKey: string, settings: Settings): (r: Result<ChatModel>)
    ensures r.Ok? ==> Lower(modelName) in GetAvailableModels()
    ensures r.Err? ==> r.message == GeminiKeyRequiredMessage || r.message == UnsupportedModelMessage
  {
    var name := Lower(modelName);
    if name == "llama" then
      Ok(ChatOllama(settings.llamaModel))
    else if name == "gemini" then
      var apiKey := EffectiveApiKey(googleApiKey, settings);
      if apiKey == "" then Err(GeminiKeyRequiredMessage)
      else Ok(ChatGoogleGenerativeAI(settings.geminiModel, apiKey, 0, None, None, 2))
    else
      Err(UnsupportedModelMessage)
  }

  /** Names that differ only in letter case build the same client. */
  lemma CreateLlmIgnoresCase(a: string, b: string, googleApiKey: string, settings: Settings)
    requires Lower(a) == Lower(b)
    ensures CreateLlm(a, googleApiKey, settings) == CreateLlm(b, googleApiKey, settings)
  {
  }

  /** Any casing of "llama" builds the local client with the configured model, whatever the key. */
  lemma LlamaIgnoresKey(modelName: string, googleApiKey: string, settings: Settings)
    requires Lower(modelName) == "llama"
    ensures CreateLlm(modelName, googleApiKey, settings) == Ok(ChatOllama(settings.llamaModel))
  {
  }

  /** Any casing of "gemini": refused exactly when both keys are empty; otherwise the effective key, temperature 0, two retries. */
  lemma GeminiNeedsKey(modelName: string, googleApiKey: string, settings: Settings)
    requires Lower(modelName) == "gemini"
    ensures CreateLlm(modelName, googleApiKey, settings) == Err(GeminiKeyRequiredMessage) <==>
              googleApiKey == "" && settings.googleApiKey == ""
    ensures !(googleApiKey == "" && settings.googleApiKey == "") ==>
              CreateLlm(modelName, googleApiKey, settings) ==
              Ok(ChatGoogleGenerativeAI(settings.geminiModel, EffectiveApiKey(googleApiKey, settings), 0, None, None, 2))
    ensures googleApiKey == "" && settings.googleApiKey != "" ==>
              CreateLlm(modelName, googleApiKey, settings).Ok? &&
              CreateLlm(modelName, googleApiKey, settings).value.googleApiKey == settings.googleApiKey
    ensures googleApiKey != "" ==>
              CreateLlm(modelName, googleApiKey, settings).Ok? &&
              CreateLlm(modelName, googleApiKey, settings).value.googleApiKey == googleApiKey
  {
  }

  /** Every other name is refused as unsupported. */
  lemma OtherNamesUnsupported(modelName: string, googleApiKey: string, settings: Settings)
    requires Lower(modelName) != "llama" && Lower(modelName) != "gemini"
    ensures CreateLlm(modelName, googleApiKey, settings) == Err(UnsupportedModelMessage)
  {
  }

  /** Every advertised name is accepted as written; gemini only with a non-empty effective key. */
  lemma AvailableModelsAccepted(k: nat, googleApiKey: string, settings: Settings)
    requires k < |GetAvailableModels()|
    ensures var name := GetAvailableModels()[k];
            Lower(name) == name &&
            (CreateLlm(name, googleApiKey, settings).Ok? <==>
               name == "llama" || EffectiveApiKey(googleApiKey, settings) != "")
  {
    var name := GetAvailableModels()[k];
    if k == 0 {
      assert Lower(name) == "llama";
    } else {
      assert Lower(name) == "gemini";
    }
  }
}
