/**
  The decision logic of the `POST /validar-senha` handler: a presence gate on
  the `senha` field, a type gate, then the rule engine, with a confirmation
  added to the payload of a valid password.
 */
module PasswordRoutes {
  import opened JsonValue
  import opened PasswordValidator

  const RequiredMessage := "Campo 'senha' é obrigatório"
  const ConfirmationMessage := "Senha válida ✅"

  const StatusOk: nat := 200
  const StatusBadRequest: nat := 400

  datatype Option<T> = None | Some(value: T)

  /** The HTTP status and JSON payload the handler sends. */
  datatype Response = Response(status: nat, valida: bool, erros: seq<string>, confirmacao: Option<string>)

  /** The handler, given the value of the body's `senha` field. */
  function HandleValidate(senha: Value): (r: Response)
    ensures r.status == StatusOk || r.status == StatusBadRequest
    ensures !Truthy(senha) ==> r == Response(StatusBadRequest, false, [RequiredMessage], None)
    ensures Truthy(senha) && !senha.Str? ==> r == Response(StatusBadRequest, false, [NotAStringMessage], None)
    ensures r.status == StatusOk <==> senha.Str? && senha.s != ""
    ensures r.status == StatusOk ==>
              r.valida == ValidatePassword(senha).valida && r.erros == ValidatePassword(senha).erros
    ensures r.confirmacao.Some? <==> r.valida
    ensures r.confirmacao.Some? ==> r.confirmacao.value == ConfirmationMessage
  {
    if !Truthy(senha) then
      Response(StatusBadRequest, false, [RequiredMessage], None)
    else if !senha.Str? then
      Response(StatusBadRequest, false, [NotAStringMessage], None)
    else
      var resultado := ValidatePassword(senha);
      var confirmacao := if resultado.valida then Some(ConfirmationMessage) else None;
      Response(StatusOk, resultado.valida, resultado.erros, confirmacao)
  }

  /** Every rejection by a gate is invalid and carries exactly one message;
      every accepted request carries the engine's messages and never its
      type-gate message, which the handler makes unreachable. */
  lemma GateResponses(senha: Value)
    ensures HandleValidate(senha).status == StatusBadRequest ==>
              !HandleValidate(senha).valida && |HandleValidate(senha).erros| == 1
    ensures HandleValidate(senha).status == StatusOk ==>
              NotAStringMessage !in HandleValidate(senha).erros
              && |HandleValidate(senha).erros| <= 4
  {
  }

  /** The payload confirms a password exactly when it meets the whole policy. */
  lemma ConfirmedIffMeetsPolicy(senha: Value)
    ensures (HandleValidate(senha).confirmacao == Some(ConfirmationMessage)) <==>
              (senha.Str? && MeetsPolicy(senha.s))
  {
  }

  /** The empty string is falsy, so it is turned away as missing before the
      engine, which on its own would report all four rule messages. */
  lemma EmptyPasswordStopsAtPresenceGate()
    ensures HandleValidate(Str("")) == Response(StatusBadRequest, false, [RequiredMessage], None)
    ensures |ValidatePassword(Str("")).erros| == 4
  {
  }
}
