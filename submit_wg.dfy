/**
 * The decisions inside the application sender: which slice of the listing text
 * goes to the language detector, how the detector's answer is read, which
 * configured message file is chosen, how the recipient's name is put into the
 * message, and the order of the steps once the message page is open. The
 * browser and the detector are parameters: a `Page` says what the page shows,
 * a `Response` is the detector's answer as json.loads would read it.
 */
module SubmitWg {
  import opened Wrappers
  import opened Text

  // ---------------------------------------------------------------- detector prompt

  /** The characters skipped at the start of the listing text, and the end of the window. */
  const WindowStart: nat := 10
  const WindowEnd: nat := 200

  /** The slice of the listing text sent for language detection: `text[10:]` below 200 characters, else `text[10:200]`. */
  function LanguageWindow(text: string): (w: string)
    ensures |w| <= WindowEnd - WindowStart
  {
    if |text| < WindowEnd then (if |text| <= WindowStart then "" else text[WindowStart..])
    else text[WindowStart..WindowEnd]
  }

  /**
   * The window is the text without its first ten characters, cut to 190: it starts
   * where the text's eleventh character is and is as long as the text allows.
   */
  lemma LanguageWindowShape(text: string)
    ensures |text| <= WindowStart ==> LanguageWindow(text) == ""
    ensures |text| > WindowStart ==>
      |LanguageWindow(text)| == (if |text| < WindowEnd then |text| else WindowEnd) - WindowStart
      && StartsWith(text[WindowStart..], LanguageWindow(text))
  {
  }

  /** Whatever follows the first 200 characters never reaches the detector. */
  lemma LanguageWindowIgnoresTail(text: string, extra: string)
    requires |text| >= WindowEnd
    ensures LanguageWindow(text + extra) == LanguageWindow(text)
  {
    assert (text + extra)[WindowStart..WindowEnd] == text[WindowStart..WindowEnd];
  }

  const PromptHead := "What language is this:\n"
  const PromptTail := " Please only respond in a JSON style format like " + "{\"language\": \"<your-answer>\"}, "
    + "where your answer should be a single word which is the language."

  /**
   * The prompt: the fixed question, the window, and the fixed answer format. It
   * carries the window right after the question, and so never more than 190
   * characters of the listing.
   */
  function LanguagePrompt(text: string): (p: string)
    ensures |p| == |PromptHead| + |LanguageWindow(text)| + |PromptTail| <= |PromptHead| + 190 + |PromptTail|
    ensures p[..|PromptHead|] == PromptHead
    ensures p[|PromptHead|..|PromptHead| + |LanguageWindow(text)|] == LanguageWindow(text)
  {
    PromptHead + LanguageWindow(text) + PromptTail
  }

  // ---------------------------------------------------------------- detector answer

  /** A JSON value: a string, or anything else (number, list, object, null, boolean). */
  datatype JsonValue = JString(text: string) | JOther

  /** What json.loads makes of the stripped answer. */
  datatype Response = NotJson | JsonObject(members: seq<(string, JsonValue)>) | JsonNonObject

  /** The exceptions that escape the sender. */
  datatype Crash = AttributeError | IndexError | TimeoutException

  /** dict.get(key, default) on a decoded JSON object: a repeated key keeps its last value. */
  function Get(members: seq<(string, JsonValue)>, key: string, default: JsonValue): JsonValue
    decreases |members|
  {
    if |members| == 0 then default
    else if members[|members| - 1].0 == key then members[|members| - 1].1
    else Get(members[..|members| - 1], key, default)
  }

  /** A key no member carries yields the default. */
  lemma {:induction false} GetAbsent(members: seq<(string, JsonValue)>, key: string, default: JsonValue)
    requires forall i | 0 <= i < |members| :: members[i].0 != key
    ensures Get(members, key, default) == default
    decreases |members|
  {
    if |members| > 0 {
      GetAbsent(members[..|members| - 1], key, default);
    }
  }

  /** A key yields the value of its last member: no later member carries it. */
  lemma {:induction false} GetLast(members: seq<(string, JsonValue)>, key: string, default: JsonValue, j: nat)
    requires j < |members| && members[j].0 == key
    requires forall k | j < k < |members| :: members[k].0 != key
    ensures Get(members, key, default) == members[j].1
    decreases |members|
  {
    var n := |members| - 1;
    if j < n {
      GetLast(members[..n], key, default, j);
    }
  }

  const LanguageKey := "language"

  /**
   * gpt_get_language after the detector has answered: "" when the answer is not
   * JSON; the "language" member, or "", when it is an object; a JSON value that is
   * not an object has no get method.
   */
  function GptGetLanguage(response: Response): (r: Result<JsonValue, Crash>)
    ensures r.Err? <==> response.JsonNonObject?
    ensures r.Err? ==> r.error == AttributeError
    ensures response.NotJson? ==> r == Ok(JString(""))
  {
    match response
    case NotJson => Ok(JString(""))
    case JsonNonObject => Err(AttributeError)
    case JsonObject(members) => Ok(Get(members, LanguageKey, JString("")))
  }

  /** The answer in the requested format yields its language; an object without the member yields "". */
  lemma GptGetLanguageOfAnswer(answer: string, others: seq<(string, JsonValue)>)
    requires forall i | 0 <= i < |others| :: others[i].0 != LanguageKey
    ensures GptGetLanguage(JsonObject([(LanguageKey, JString(answer))])) == Ok(JString(answer))
    ensures GptGetLanguage(JsonObject(others)) == Ok(JString(""))
  {
    GetAbsent(others, LanguageKey, JString(""));
  }

  // ---------------------------------------------------------------- message choice

  /** config["messages"]: language to message file, in configuration order. */
  type Messages = seq<(string, string)>

  /** config["messages"][language] for a configured language. */
  function FileFor(messages: Messages, language: string): (file: string)
    requires language in Keys(messages)
    ensures file in Values(messages)
    decreases |messages|
  {
    if messages[0].0 == language then messages[0].1
    else
      assert language in Keys(messages[1..]) by {
        var i :| 0 <= i < |messages| && Keys(messages)[i] == language;
        assert Keys(messages[1..])[i - 1] == language;
      }
      var file := FileFor(messages[1..], language);
      assert file in Values(messages) by {
        var i :| 0 <= i < |messages| - 1 && Values(messages[1..])[i] == file;
        assert Values(messages)[i + 1] == file;
      }
      file
  }

  /** Configured languages are the keys of a dictionary: no two are equal. */
  predicate DistinctLanguages(messages: Messages) {
    forall i, j | 0 <= i < j < |messages| :: messages[i].0 != messages[j].0
  }

  /** The file of a language is the one configured for it. */
  lemma {:induction false} FileForIndex(messages: Messages, i: nat)
    requires DistinctLanguages(messages) && i < |messages|
    ensures messages[i].0 in Keys(messages)
    ensures FileFor(messages, messages[i].0) == messages[i].1
    decreases |messages|
  {
    assert Keys(messages)[i] == messages[i].0;
    if i > 0 {
      assert messages[0].0 != messages[i].0;
      FileForIndex(messages[1..], i - 1);
    }
  }

  /**
   * The message file submit_app reads: the only one when one is configured; the
   * first when the API key is set to ""; otherwise the file of the lower-cased
   * detected language if it is configured, else the first. `detected` is what
   * gpt_get_language returned, asked for only in that last case.
   */
  function ChooseMessageFile(messages: Messages, apiKey: Option<string>, detected: Result<JsonValue, Crash>): (r: Result<string, Crash>)
    ensures r.Ok? ==> r.value in Values(messages)
  {
    if |messages| == 1 then Ok(messages[0].1)
    else if apiKey == Some("") then
      if |messages| == 0 then Err(IndexError) else Ok(messages[0].1)
    else
      match detected
      case Err(e) => Err(e)
      case Ok(JOther) => Err(AttributeError)
      case Ok(JString(answer)) =>
        var language := Lower(answer);
        if language in Keys(messages) then Ok(FileFor(messages, language))
        else if |messages| == 0 then Err(IndexError)
        else Ok(messages[0].1)
  }

  /** With one configured language, neither the key nor the detector matters. */
  lemma OneLanguageChosen(file: string, language: string, apiKey: Option<string>, detected: Result<JsonValue, Crash>)
    ensures ChooseMessageFile([(language, file)], apiKey, detected) == Ok(file)
  {
  }

  /**
   * With at least one configured language the choice fails only when the detector
   * is asked and gives no string; a detected language that is configured wins;
   * an unknown one falls back to the first file.
   */
  lemma ChooseMessageFileCases(messages: Messages, apiKey: Option<string>, answer: string, i: nat)
    requires DistinctLanguages(messages) && |messages| >= 1
    ensures ChooseMessageFile(messages, apiKey, Ok(JString(answer))).Ok?
    ensures apiKey == Some("") ==> ChooseMessageFile(messages, apiKey, Err(AttributeError)) == Ok(messages[0].1)
    ensures |messages| > 1 && apiKey != Some("") && i < |messages| && messages[i].0 == Lower(answer) ==>
      ChooseMessageFile(messages, apiKey, Ok(JString(answer))) == Ok(messages[i].1)
    ensures |messages| > 1 && apiKey != Some("") && Lower(answer) !in Keys(messages) ==>
      ChooseMessageFile(messages, apiKey, Ok(JString(answer))) == Ok(messages[0].1)
  {
    if i < |messages| {
      FileForIndex(messages, i);
    }
  }

  /** Without any configured language the sender never gets a message file. */
  lemma NoLanguagesFail(apiKey: Option<string>, detected: Result<JsonValue, Crash>)
    ensures ChooseMessageFile([], apiKey, detected).Err?
  {
  }

  // ---------------------------------------------------------------- recipient

  const Placeholder := "receipient"

  /** user_name.split(" ")[0] */
  function FirstWord(userName: string): string {
    Split(userName, " ")[0]
  }

  lemma {:induction false} SplitFromFirstWord(s: string, cur: string)
    requires ' ' !in cur
    ensures ' ' !in SplitFrom(s, " ", cur)[0]
    ensures StartsWith(cur + s, SplitFrom(s, " ", cur)[0])
    decreases |s|
  {
    if |s| >= 1 && s[..1] != " " {
      assert s[0] != ' ';
      SplitFromFirstWord(s[1..], cur + [s[0]]);
      assert (cur + [s[0]]) + s[1..] == cur + s;
    } else if |s| == 0 {
      assert cur + s == cur;
    }
  }

  /** The first word holds no space, begins the name, and is the whole name when it has no space. */
  lemma FirstWordShape(userName: string)
    ensures ' ' !in FirstWord(userName)
    ensures StartsWith(userName, FirstWord(userName))
    ensures ' ' !in userName ==> FirstWord(userName) == userName
  {
    SplitFromFirstWord(userName, "");
    assert "" + userName == userName;
    if ' ' !in userName {
      SplitAbsent(userName, " ");
    }
  }

  /**
   * The message with every occurrence of the placeholder replaced by the
   * recipient's first name: each placeholder gives way to the first name, and a
   * message without one is sent as written.
   */
  function Personalize(message: string, userName: string): (r: string)
    ensures |r| == |message| + Occurrences(message, Placeholder) * (|FirstWord(userName)| - |Placeholder|)
    ensures !Contains(message, Placeholder) ==> r == message
  {
    ReplaceLength(message, Placeholder, FirstWord(userName));
    assert !Contains(message, Placeholder) ==> Replace(message, Placeholder, FirstWord(userName)) == message by {
      if !Contains(message, Placeholder) {
        ReplaceAbsent(message, Placeholder, FirstWord(userName));
      }
    }
    Replace(message, Placeholder, FirstWord(userName))
  }

  // ---------------------------------------------------------------- the message page

  /** The message input element. */
  class TextArea {
    var content: string

    constructor (content: string)
      ensures this.content == content
    {
      this.content := content;
    }

    method Clear()
      modifies this
      ensures content == ""
    {
      content := "";
    }

    method SendKeys(keys: string)
      modifies this
      ensures content == old(content) + keys
    {
      content := content + keys;
    }
  }

  /**
   * The send button as get_element and click_button meet it: not on the page
   * (get_element's wait ends in TimeoutException, which click_button does not
   * catch), present but not clickable (ElementNotInteractableException), or
   * clickable.
   */
  datatype Button = ButtonMissing | NotInteractable | Clickable

  /**
   * What the logged-in message page shows: an earlier message's timestamp,
   * whether the message input is there, and the send button.
   */
  datatype Page = Page(timestampFound: bool, inputFound: bool, button: Button)

  /**
   * submit_app from the message page on. An earlier message stops it before
   * anything is typed. A missing message input raises TimeoutException out of
   * get_element. Otherwise the input is cleared, a message file chosen and read,
   * the personalised message typed and the send button clicked. A missing file
   * or a button that cannot be clicked gives False, a missing button raises
   * TimeoutException; `files` holds the message files that exist, with their
   * contents.
   */
  method SubmitApp(area: TextArea, page: Page, messages: Messages, apiKey: Option<string>, response: Response,
                   files: map<string, string>, userName: string)
    returns (r: Result<bool, Crash>)
    modifies area
    ensures page.timestampFound ==> r == Ok(false) && area.content == old(area.content)
    ensures !page.timestampFound && !page.inputFound ==> r == Err(TimeoutException) && area.content == old(area.content)
    ensures !page.timestampFound && page.inputFound ==>
      var choice := ChooseMessageFile(messages, apiKey, GptGetLanguage(response));
      (choice.Err? ==> r == Err(choice.error) && area.content == "")
      && (choice.Ok? && choice.value !in files ==> r == Ok(false) && area.content == "")
      && (choice.Ok? && choice.value in files ==>
            area.content == Personalize(files[choice.value], userName)
            && r == match page.button
                    case ButtonMissing => Err(TimeoutException)
                    case NotInteractable => Ok(false)
                    case Clickable => Ok(true))
  {
    if page.timestampFound {
      return Ok(false);
    }
    if !page.inputFound {
      return Err(TimeoutException);
    }
    area.Clear();
    var messageFile: string;
    if |messages| == 1 {
      messageFile := messages[0].1;
    } else if apiKey == Some("") {
      if |messages| == 0 {
        return Err(IndexError);
      }
      messageFile := messages[0].1;
    } else {
      var detected := GptGetLanguage(response);
      if detected.Err? {
        return Err(detected.error);
      }
      if detected.value.JOther? {
        return Err(AttributeError);
      }
      var language := Lower(detected.value.text);
      if language in Keys(messages) {
        messageFile := FileFor(messages, language);
      } else {
        if |messages| == 0 {
          return Err(IndexError);
        }
        messageFile := messages[0].1;
      }
    }
    if messageFile !in files {
      return Ok(false);
    }
    var message := Personalize(files[messageFile], userName);
    area.SendKeys(message);
    assert area.content == message;
    match page.button {
      case ButtonMissing => return Err(TimeoutException);
      case NotInteractable => return Ok(false);
      case Clickable => return Ok(true);
    }
  }
}
