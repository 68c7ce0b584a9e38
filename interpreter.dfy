/**
 * The translator front end (chatrans/src/interpreter/interpreter.rs): the
 * target language read from the configuration, the optional Aliyun client,
 * and the pass-through of `translate` when there is no client.
 *
 * The request itself (building the JSON body, the HTTP post through the
 * client and reading the reply) is foreign code; here it is a parameter
 * giving the translated text the service returned, if any.
 */
module Interpreter {
  import opened Wrappers

  datatype Language = ZH | EN

  /** `Language::from`: "zh" and "en" name their language; anything else falls back to Chinese. */
  function LanguageFrom(s: string): (l: Language)
    ensures l == EN <==> s == "en"
    ensures s == "zh" ==> l == ZH
  {
    match s
    case "zh" => ZH
    case "en" => EN
    case _ => ZH
  }

  /** `Language::to_string`. */
  function LanguageName(l: Language): (s: string)
    ensures s == "zh" || s == "en"
    ensures s == "en" <==> l == EN
  {
    match l
    case ZH => "zh"
    case EN => "en"
  }

  /** Reading back a language's name gives the language. */
  lemma LanguageRoundTrip(l: Language)
    ensures LanguageFrom(LanguageName(l)) == l
  {
  }

  /** The two names are the only strings that survive the trip through a language unchanged. */
  lemma NameRoundTrip(s: string)
    ensures LanguageName(LanguageFrom(s)) == s <==> s == "zh" || s == "en"
  {
  }

  /** The credentials an `AliyunCli` is built from. */
  datatype AliyunCli = AliyunCli(accessKeyId: string, accessKeySecret: string)

  datatype Interpreter = Interpreter(language: Language, aliyunCli: Option<AliyunCli>)

  /** `Interpreter::new`: a client exactly when both the key id and the secret are given. */
  function New(language: string, accessKeyId: Option<string>, accessKeySecret: Option<string>): (r: Interpreter)
    ensures r.language == LanguageFrom(language)
    ensures r.aliyunCli.Some? <==> accessKeyId.Some? && accessKeySecret.Some?
    ensures r.aliyunCli.Some? ==> r.aliyunCli.value == AliyunCli(accessKeyId.value, accessKeySecret.value)
  {
    var cli := match (accessKeyId, accessKeySecret)
      case (Some(id), Some(secret)) => Some(AliyunCli(id, secret))
      case _ => None;
    Interpreter(LanguageFrom(language), cli)
  }

  /**
   * `translate`: without a client the text comes back unchanged; with one,
   * `service` stands for the post and the parse of its reply, giving the
   * translated text or `None` when the reply is not a success.
   */
  function Translate(it: Interpreter, text: string, service: (AliyunCli, Language, string) -> Option<string>): (r: string)
    ensures it.aliyunCli.None? ==> r == text
    ensures it.aliyunCli.Some? && service(it.aliyunCli.value, it.language, text).None? ==> r == text
    ensures it.aliyunCli.Some? && service(it.aliyunCli.value, it.language, text).Some? ==>
      r == service(it.aliyunCli.value, it.language, text).value
  {
    if it.aliyunCli.None? then text
    else
      match service(it.aliyunCli.value, it.language, text)
      case None => text
      case Some(translated) => translated
  }

  /** An interpreter built without both credentials never changes a text. */
  lemma NoCredentialsPassThrough(
    language: string, accessKeyId: Option<string>, accessKeySecret: Option<string>,
    text: string, service: (AliyunCli, Language, string) -> Option<string>)
    requires accessKeyId.None? || accessKeySecret.None?
    ensures Translate(New(language, accessKeyId, accessKeySecret), text, service) == text
  {
  }
}
