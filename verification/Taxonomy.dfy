/** The closed set of entity types, with the label each is masked under and the layer that detects it. */
module Taxonomy {
  import opened Placeholder

  datatype Layer = Deterministic | Ner

  /** `Unlisted` is any name outside the taxonomy. */
  datatype EntityType =
    | TR_TCKN | TR_VKN | TR_IBAN | IBAN_OTHER | CREDIT_CARD | TR_PHONE | TR_PLATE | TR_SGK | EMAIL
    | SECRET_API_KEY | SECRET_JWT | SECRET_PRIVATE_KEY
    | PERSON | ADDRESS | ORG | DOB | HEALTH | RELIGION | ETHNICITY | POLITICAL | SEXUAL_LIFE
    | CRIMINAL | BIOMETRIC_REF | UNION
    | Unlisted(name: string)

  predicate IsSpecial(t: EntityType) {
    || t.HEALTH? || t.RELIGION? || t.ETHNICITY? || t.POLITICAL? || t.SEXUAL_LIFE? || t.CRIMINAL? || t.BIOMETRIC_REF?
    || t.UNION?
  }

  /** The labels of the special categories of personal data. */
  function SpecialLabel(t: EntityType): (lbl: string)
    requires IsSpecial(t)
    ensures IsLabel(lbl)
  {
    match t
    case HEALTH => "SAGLIK"
    case RELIGION => "INANC"
    case ETHNICITY => "KOKEN"
    case POLITICAL => "GORUS"
    case SEXUAL_LIFE => "MAHREM"
    case CRIMINAL => "SABIKA"
    case BIOMETRIC_REF => "BIYOMETRI"
    case UNION => "UYELIK"
  }

  /** Several types may share a label. Every label fits the placeholder grammar. */
  function Label(t: EntityType): (lbl: string)
    requires !t.Unlisted?
    ensures IsLabel(lbl)
  {
    match t
    case TR_TCKN => "TCKN"
    case TR_VKN => "VKN"
    case TR_IBAN | IBAN_OTHER => "IBAN"
    case CREDIT_CARD => "KART"
    case TR_PHONE => "TEL"
    case TR_PLATE => "PLAKA"
    case TR_SGK => "SGK"
    case EMAIL => "EPOSTA"
    case SECRET_API_KEY | SECRET_JWT | SECRET_PRIVATE_KEY => "SIR"
    case PERSON => "KISI"
    case ADDRESS => "ADRES"
    case ORG => "KURUM"
    case DOB => "DOGUM"
    case HEALTH | RELIGION | ETHNICITY | POLITICAL | SEXUAL_LIFE | CRIMINAL | BIOMETRIC_REF | UNION =>
      SpecialLabel(t)
  }

  predicate IsIban(t: EntityType) {
    t.TR_IBAN? || t.IBAN_OTHER?
  }

  predicate IsSecret(t: EntityType) {
    t.SECRET_API_KEY? || t.SECRET_JWT? || t.SECRET_PRIVATE_KEY?
  }

  lemma SpecialApart(a: EntityType, b: EntityType)
    requires IsSpecial(a) && IsSpecial(b) && SpecialLabel(a) == SpecialLabel(b)
    ensures a == b
  {
  }

  /** Of the special categories no label is one of the others. */
  lemma SpecialLabels(t: EntityType)
    requires IsSpecial(t)
    ensures SpecialLabel(t) !in ["TCKN", "VKN", "IBAN", "KART", "TEL", "PLAKA", "SGK", "EPOSTA", "SIR", "KISI", "ADRES",
                                 "KURUM", "DOGUM"]
  {
  }

  lemma OtherLabels(t: EntityType)
    requires !t.Unlisted? && !IsSpecial(t)
    ensures Label(t) in ["TCKN", "VKN", "IBAN", "KART", "TEL", "PLAKA", "SGK", "EPOSTA", "SIR", "KISI", "ADRES",
                         "KURUM", "DOGUM"]
  {
  }

  lemma OthersApart(a: EntityType, b: EntityType)
    requires !a.Unlisted? && !b.Unlisted? && !IsSpecial(a) && !IsSpecial(b)
    ensures Label(a) == Label(b) <==> a == b || (IsIban(a) && IsIban(b)) || (IsSecret(a) && IsSecret(b))
  {
    hide SpecialLabel;
  }

  /** IBANs share a label, and secrets do; no other two types are masked alike. */
  lemma SharedLabels(a: EntityType, b: EntityType)
    requires !a.Unlisted? && !b.Unlisted?
    ensures Label(a) == Label(b) <==> a == b || (IsIban(a) && IsIban(b)) || (IsSecret(a) && IsSecret(b))
  {
    hide Label, SpecialLabel;
    if IsSpecial(a) && IsSpecial(b) {
      LabelOfSpecial(a);
      LabelOfSpecial(b);
      if Label(a) == Label(b) {
        SpecialApart(a, b);
      }
    } else if IsSpecial(a) {
      LabelOfSpecial(a);
      SpecialLabels(a);
      OtherLabels(b);
    } else if IsSpecial(b) {
      LabelOfSpecial(b);
      SpecialLabels(b);
      OtherLabels(a);
    } else {
      OthersApart(a, b);
    }
  }

  lemma LabelOfSpecial(t: EntityType)
    requires IsSpecial(t)
    ensures Label(t) == SpecialLabel(t)
  {
    hide SpecialLabel;
  }
}
