/** The older copy of the algorithm in `main.go`: `generatePassword`, which
    returns "" instead of an error, has no upper length bound and lists each
    selected alphabet once; and the POST handler that builds its request from
    form fields. Its constants `uppercase`, `lowercase`, `numbers`, `symbols`
    are byte for byte those of `Config`, and its seed, fill and shuffle loops
    are those of `Generator`, so both are reused here. */
module Legacy {
  import opened Bytes
  import opened Random
  import opened Charsets
  import opened Generator
  import Config

  /** `generatePassword`: "" when no category is selected, when the length is
      not positive, or when a random read fails; otherwise a password of
      exactly `length` bytes, for any positive length. */
  method GeneratePassword(cfg: Config.PasswordConfig, src: Source) returns (pw: seq<byte>, drawn: nat)
    ensures cfg.length <= 0 || !AnySelected(cfg) ==> pw == [] && drawn == 0
    ensures |pw| > 0 <==> cfg.length > 0 && AnySelected(cfg) && Succeeds(src, 0, 2 * cfg.length - 1)
    ensures |pw| > 0 ==> |pw| == cfg.length && drawn == 2 * cfg.length - 1
    ensures cfg.length > 0 && AnySelected(cfg) && |pw| == 0 ==> 0 < drawn < 2 * cfg.length && FirstFailure(src, 0, drawn - 1)
    ensures AllFrom(pw, SelectedAlphabets(cfg))
    ensures forall c :: IsSelected(cfg, c) && SelectionIndex(cfg, c) < cfg.length ==>
              pw == [] || Covers(pw, AlphabetOf(cfg, c))
  {
    var charsets := SelectedAlphabets(cfg);
    if |charsets| == 0 || cfg.length <= 0 {
      return [], 0;
    }
    var r;
    r, drawn := BuildPassword(cfg.length, charsets, src);
    if r.Err? {
      return [], drawn;
    }
    pw := r.value;
    forall c | IsSelected(cfg, c) && SelectionIndex(cfg, c) < cfg.length ensures Covers(pw, AlphabetOf(cfg, c)) {
      SelectedAlphabetsInOrder(cfg, c);
      assert Covers(pw, charsets[SelectionIndex(cfg, c)]);
    }
  }

  /** Lines 118-121: any parsed length other than 8 or 12 becomes 12. */
  function NormaliseLength(n: int): (r: int)
    ensures r == 8 || r == 12
    ensures r == n <==> n == 8 || n == 12
    ensures n != 8 && n != 12 ==> r == 12
  {
    if n != 8 && n != 12 then 12 else n
  }

  /** A parsed form: the first value given for each field. A missing field
      reads as "", as `r.Form.Get` returns. */
  type Form = map<string, string>

  function FormValue(form: Form, key: string): string {
    if key in form then form[key] else ""
  }

  /** Lines 118-133: the request the POST handler passes to `generatePassword`.
      `parsedLength` is whatever `strconv.Atoi` returned for the length field,
      including on error, and `customSymbols` is the custom-symbols field after
      `strings.TrimSpace`. A flag is set only by the exact value "true". */
  function ConfigFromForm(parsedLength: int, form: Form, customSymbols: seq<byte>): (cfg: Config.PasswordConfig)
    ensures cfg.length == 8 || cfg.length == 12
    ensures cfg.length == parsedLength <==> parsedLength == 8 || parsedLength == 12
    ensures parsedLength != 8 && parsedLength != 12 ==> cfg.length == 12
    ensures cfg.useUppercase <==> "uppercase" in form && form["uppercase"] == "true"
    ensures cfg.useLowercase <==> "lowercase" in form && form["lowercase"] == "true"
    ensures cfg.useNumbers <==> "numbers" in form && form["numbers"] == "true"
    ensures cfg.useSymbols <==> "symbols" in form && form["symbols"] == "true"
    ensures cfg.customSymbols == customSymbols
  {
    Config.PasswordConfig(
      NormaliseLength(parsedLength),
      FormValue(form, "uppercase") == "true",
      FormValue(form, "lowercase") == "true",
      FormValue(form, "numbers") == "true",
      FormValue(form, "symbols") == "true",
      customSymbols)
  }

  /** Lines 113-138 for a POST: the response body is "" or a password of 8 or
      12 bytes, and since both lengths exceed the four categories, a non-empty
      body holds a byte of every category whose field was "true". */
  method HandlePost(parsedLength: int, form: Form, customSymbols: seq<byte>, src: Source) returns (body: seq<byte>)
    ensures |body| == 0 || |body| == 8 || |body| == 12
    ensures |body| > 0 ==> |body| == ConfigFromForm(parsedLength, form, customSymbols).length
    ensures |body| > 0 && (parsedLength == 8 || parsedLength == 12) ==> |body| == parsedLength
    ensures |body| > 0 && parsedLength != 8 && parsedLength != 12 ==> |body| == 12
    ensures var cfg := ConfigFromForm(parsedLength, form, customSymbols);
            |body| > 0 <==> AnySelected(cfg) && Succeeds(src, 0, 2 * cfg.length - 1)
    ensures var cfg := ConfigFromForm(parsedLength, form, customSymbols);
            AllFrom(body, SelectedAlphabets(cfg))
    ensures var cfg := ConfigFromForm(parsedLength, form, customSymbols);
            forall c :: IsSelected(cfg, c) ==> body == [] || Covers(body, AlphabetOf(cfg, c))
  {
    var cfg := ConfigFromForm(parsedLength, form, customSymbols);
    var drawn;
    body, drawn := GeneratePassword(cfg, src);
  }
}
