/** The two display formatters of the report service: time of day and event category. */
module ReportFormat {
  import opened Text

  /** Exactly two digits, a colon, two digits, a colon and two digits. */
  predicate IsHms(h: string) {
    |h| == 8 && h[2] == ':' && h[5] == ':' && AllDigits(h[..2]) && AllDigits(h[3..5]) && AllDigits(h[6..])
  }

  /** Exactly four digits. */
  predicate IsFourDigits(h: string) {
    |h| == 4 && AllDigits(h)
  }

  /** `HH:MM`, the form the formatter aims at. */
  predicate IsHhMm(h: string) {
    |h| == 5 && h[2] == ':' && AllDigits(h[..2]) && AllDigits(h[3..])
  }

  lemma HmsParts(h: string)
    requires IsHms(h)
    ensures Split(h, ':') == [h[..2], h[3..5], h[6..]]
  {
    DigitsHaveNoSeparator(h[..2], ':');
    DigitsHaveNoSeparator(h[3..5], ':');
    DigitsHaveNoSeparator(h[6..], ':');
    assert h == h[..2] + [':'] + h[3..5] + [':'] + h[6..];
    SplitThree(h[..2], h[3..5], h[6..], ':');
  }

  /** `formatarHora`: `HH:MM:SS` loses its seconds when they are `00`, four digits `HHMM` get a
      colon, and every other string (the empty one included) is returned as it is. */
  function FormatHora(hora: string): (r: string)
    ensures hora == "" ==> r == ""
    ensures IsHms(hora) && hora[6..] == "00" ==> IsHhMm(r) && r == hora[..5]
    ensures IsHms(hora) && hora[6..] != "00" ==> r == hora
    ensures IsFourDigits(hora) ==> IsHhMm(r) && r[..2] == hora[..2] && r[3..] == hora[2..]
    ensures !IsHms(hora) && !IsFourDigits(hora) ==> r == hora
  {
    if hora == "" then ""
    else if IsHms(hora) then
      HmsParts(hora);
      var parts := Split(hora, ':');
      assert hora[..5] == parts[0] + ":" + parts[1];
      if parts[2] == "00" then parts[0] + ":" + parts[1] else hora
    else if IsFourDigits(hora) then
      hora[..2] + ":" + hora[2..4]
    else hora
  }

  /** Formatting a time twice gives what formatting it once gave. */
  lemma FormatHoraIdempotent(hora: string)
    ensures FormatHora(FormatHora(hora)) == FormatHora(hora)
  {
    var r := FormatHora(hora);
    if IsHhMm(r) {
      assert !IsHms(r) && !IsFourDigits(r);
    }
  }

  /** The formatter only ever removes a `:00` seconds suffix or inserts one colon: the
      digits of the time are kept, in order. */
  lemma FormatHoraKeepsDigits(hora: string)
    requires IsHms(hora) || IsFourDigits(hora)
    ensures var r := FormatHora(hora);
            IsHhMm(r) || r == hora
    ensures var r := FormatHora(hora);
            IsHhMm(r) ==> r[..2] + r[3..] == (if IsHms(hora) then hora[..2] + hora[3..5] else hora)
  {
    var r := FormatHora(hora);
    if IsFourDigits(hora) {
      assert hora == hora[..2] + hora[2..];
    }
  }

  /** The fine-grained event labels and the coarse categories they are grouped into. */
  const Labels: set<string> := {
    "Inicio de Jornada", "Fim de Jornada", "Inicio Refeição", "Fim Refeição",
    "Inicio Pausa", "Fim Pausa", "Inicio Espera", "Reinicio de viagem"
  }
  const Categories: set<string> := {"Jornada", "Refeição", "Pausa", "Espera", "Reinicio"}

  /** `formatarTipoName`: the category of a known label; any other label is its own category. */
  function FormatTipoName(tipo: string): (r: string)
    ensures tipo in Labels ==> r in Categories
    ensures tipo !in Labels ==> r == tipo
  {
    match tipo
    case "Inicio de Jornada" => "Jornada"
    case "Fim de Jornada" => "Jornada"
    case "Inicio Refeição" => "Refeição"
    case "Fim Refeição" => "Refeição"
    case "Inicio Pausa" => "Pausa"
    case "Fim Pausa" => "Pausa"
    case "Inicio Espera" => "Espera"
    case "Reinicio de viagem" => "Reinicio"
    case _ => tipo
  }

  /** No category is itself a label, so classifying a category changes nothing. */
  lemma FormatTipoNameIdempotent(tipo: string)
    ensures FormatTipoName(FormatTipoName(tipo)) == FormatTipoName(tipo)
  {
    assert Labels !! Categories;
  }

  /** Which labels land in each category: the "Inicio" and "Fim" label of a pair, and the
      category name itself. */
  lemma FormatTipoNamePreimage(tipo: string)
    ensures FormatTipoName(tipo) == "Jornada" <==> tipo in {"Inicio de Jornada", "Fim de Jornada", "Jornada"}
    ensures FormatTipoName(tipo) == "Refeição" <==> tipo in {"Inicio Refeição", "Fim Refeição", "Refeição"}
    ensures FormatTipoName(tipo) == "Pausa" <==> tipo in {"Inicio Pausa", "Fim Pausa", "Pausa"}
    ensures FormatTipoName(tipo) == "Espera" <==> tipo in {"Inicio Espera", "Espera"}
    ensures FormatTipoName(tipo) == "Reinicio" <==> tipo in {"Reinicio de viagem", "Reinicio"}
  {
  }
}
